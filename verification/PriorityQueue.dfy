/**
  The heap priority queue of priorityqueue_heap.c. pq_pop does not move the last element to the root: it lets
  the hole at the root sink to a leaf and pushes every element behind that leaf again.
*/
module PriorityQueue {

  datatype Element = Element(data: int, priority: int)

  /** f is the father of s in the tree laid out in an array. */
  predicate IsFather(f: nat, s: nat) {
    s == 2 * f + 1 || s == 2 * f + 2
  }

  /** (s-1)/2, with the division of C, which gives 0 for s == 0. */
  function Father(s: nat): (f: nat)
    ensures s > 0 ==> IsFather(f, s)
  {
    if s == 0 then 0 else (s - 1) / 2
  }

  /** No element has a lower priority than its father. */
  ghost predicate Heap(q: seq<Element>) {
    forall f: nat, s: nat :: s < |q| && IsFather(f, s) ==> q[f].priority <= q[s].priority
  }

  lemma {:induction false} RootIsLeast(q: seq<Element>, i: nat)
    requires Heap(q) && i < |q|
    ensures q[0].priority <= q[i].priority
    decreases i
  {
    if i > 0 {
      assert IsFather(Father(i), i);
      RootIsLeast(q, Father(i));
    }
  }

  lemma {:induction false} RootIsLeastOfAll(q: seq<Element>)
    requires Heap(q) && |q| > 0
    ensures forall e :: e in q ==> q[0].priority <= e.priority
  {
    forall e | e in q ensures q[0].priority <= e.priority {
      var i :| 0 <= i < |q| && q[i] == e;
      RootIsLeast(q, i);
    }
  }

  // ---------------------------------------------------------------- sifting up

  /** A heap but for position h: the order holds between all other positions, also from the father of h to its
      sons. */
  ghost predicate HeapAround(q: seq<Element>, h: nat) {
    && h < |q|
    && (forall f: nat, s: nat :: s < |q| && s != h && f != h && IsFather(f, s) ==> q[f].priority <= q[s].priority)
    && (forall f: nat, s: nat :: s < |q| && IsFather(h, s) && IsFather(f, h) ==> q[f].priority <= q[s].priority)
  }

  /** The sons of h have priority p or more. */
  ghost predicate SonsFrom(q: seq<Element>, h: nat, p: int) {
    forall s: nat :: s < |q| && IsFather(h, s) ==> p <= q[s].priority
  }

  lemma {:induction false} NewBottom(q: seq<Element>, r: seq<Element>, p: int)
    requires Heap(q) && |r| == |q| + 1 && r[..|q|] == q
    ensures HeapAround(r, |q|) && SonsFrom(r, |q|, p)
  {
    assert forall i :: 0 <= i < |q| ==> r[i] == r[..|q|][i];
  }

  /** Moving the father down moves the hole up. */
  lemma {:induction false} HoleUp(q: seq<Element>, h: nat, g: nat, p: int)
    requires HeapAround(q, h) && SonsFrom(q, h, p) && IsFather(g, h) && p < q[g].priority
    ensures HeapAround(q[h := q[g]], g) && SonsFrom(q[h := q[g]], g, p)
  {
    var r := q[h := q[g]];
    forall f: nat, s: nat | s < |r| && s != g && f != g && IsFather(f, s) ensures r[f].priority <= r[s].priority {
      if f == h {
        assert q[g].priority <= q[s].priority;
      }
    }
    forall f: nat, s: nat | s < |r| && IsFather(g, s) && IsFather(f, g) ensures r[f].priority <= r[s].priority {
      assert q[f].priority <= q[g].priority;
      if s != h {
        assert q[g].priority <= q[s].priority;
      }
    }
  }

  lemma {:induction false} FillHole(q: seq<Element>, h: nat, e: Element)
    requires HeapAround(q, h) && SonsFrom(q, h, e.priority)
    requires h > 0 ==> q[Father(h)].priority <= e.priority
    ensures Heap(q[h := e])
  {
  }

  /** Moving the lesser son up moves the hole down. */
  lemma {:induction false} HoleDown(q: seq<Element>, h: nat, t: nat)
    requires HeapAround(q, h) && t < |q| && IsFather(h, t)
    requires q[t].priority <= q[2 * h + 1].priority
    requires 2 * h + 2 < |q| ==> q[t].priority <= q[2 * h + 2].priority
    ensures HeapAround(q[h := q[t]], t)
  {
    var r := q[h := q[t]];
    forall f: nat, s: nat | s < |r| && s != t && f != t && IsFather(f, s) ensures r[f].priority <= r[s].priority {
      if s == h {
        assert q[f].priority <= q[t].priority;
      }
    }
  }

  /** The positions before a hole at a leaf form a heap. */
  lemma {:induction false} BeforeLeaf(q: seq<Element>, h: nat)
    requires HeapAround(q, h)
    ensures Heap(q[..h])
  {
  }

  lemma {:induction false} SwapKeepsElements(q: seq<Element>, i: nat, j: nat)
    requires i < |q| && j < |q|
    ensures multiset(q[i := q[j]][j := q[i]]) == multiset(q)
  {
  }

  /** Moving an element into the hole moves the hole, whatever would be put there. */
  lemma {:induction false} MoveHole(q: seq<Element>, p: nat, s: nat, e: Element)
    requires p < |q| && s < |q| && p != s
    ensures multiset(q[p := q[s]][s := e]) == multiset(q[p := e])
  {
    var a, b := q[p := q[s]][s := e], q[p := e];
    assert a == b[p := b[s]][s := b[p]];
    SwapKeepsElements(b, p, s);
  }

  // ---------------------------------------------------------------- the code

  /** Taking out the hole. */
  lemma {:induction false} WithoutHole(q: seq<Element>, p: nat, e: Element)
    requires p < |q|
    ensures multiset(q[..p]) + multiset(q[p + 1..]) == multiset(q[p := e]) - multiset{e}
  {
    assert q[p := e] == q[..p] + [e] + q[p + 1..];
  }

  class Pq {
    var pqArray: array<Element>
    var n: nat
    var alloc: nat

    ghost predicate Sized()
      reads this
    {
      alloc == pqArray.Length && n <= alloc && alloc >= 4
    }

    ghost predicate Valid()
      reads this, pqArray
    {
      Sized() && Heap(pqArray[..n])
    }

    ghost function Contents(): seq<Element>
      reads this, pqArray
      requires n <= pqArray.Length
    {
      pqArray[..n]
    }

    /** pq_new. */
    constructor (size: int)
      ensures Valid() && fresh(pqArray) && Contents() == []
      ensures alloc == if size < 4 then 4 else size
    {
      var room: nat := if size < 4 then 4 else size;
      pqArray := new Element[room](_ => Element(0, 0));
      alloc := room;
      n := 0;
    }

    /** realloc. */
    method Resize(size: nat)
      requires n <= size && n <= pqArray.Length
      modifies this`pqArray, this`alloc
      ensures fresh(pqArray) && pqArray.Length == alloc == size
      ensures pqArray[..n] == old(pqArray[..n])
    {
      var bigger := new Element[size](_ => Element(0, 0));
      var i := 0;
      while i < n
        invariant 0 <= i <= n && pqArray == old(pqArray)
        invariant bigger[..i] == pqArray[..i] && pqArray[..n] == old(pqArray[..n])
      {
        bigger[i] := pqArray[i];
        i := i + 1;
      }
      pqArray := bigger;
      alloc := size;
    }

    /** The body of the loop of pq_push: the father of the hole s moves down into it. */
    method FatherDown(s: nat, f: nat, ghost e: Element)
      requires Sized() && s < n && IsFather(f, s) && e.priority < pqArray[f].priority
      requires HeapAround(pqArray[..n], s) && SonsFrom(pqArray[..n], s, e.priority)
      modifies pqArray
      ensures HeapAround(pqArray[..n], f) && SonsFrom(pqArray[..n], f, e.priority)
      ensures multiset(pqArray[..n][f := e]) == old(multiset(pqArray[..n][s := e]))
      ensures pqArray[n..] == old(pqArray[n..])
    {
      hide HeapAround, SonsFrom;
      ghost var q := pqArray[..n];
      HoleUp(q, s, f, e.priority);
      MoveHole(q, s, f, e);
      pqArray[s] := pqArray[f];
      assert pqArray[..n] == q[s := q[f]];
    }

    /** pq_push once there is room. */
    method SiftUp(data: int, priority: int)
      requires Valid() && n < alloc
      modifies this`n, pqArray
      ensures Valid()
      ensures multiset(Contents()) == old(multiset(Contents())) + multiset{Element(data, priority)}
      ensures n == old(n) + 1
      ensures pqArray[n..] == old(pqArray[n + 1..])
    {
      hide Heap, HeapAround, SonsFrom, Father;
      ghost var e := Element(data, priority);
      ghost var before := pqArray[..n];
      n := n + 1;
      var s: nat := n - 1;
      var f: nat := Father(s);
      NewBottom(before, pqArray[..n], priority);
      assert pqArray[..n][s := e] == before + [e];
      while s > 0 && priority < pqArray[f].priority
        invariant s < n <= pqArray.Length && f == Father(s)
        invariant HeapAround(pqArray[..n], s) && SonsFrom(pqArray[..n], s, priority)
        invariant multiset(pqArray[..n][s := e]) == multiset(before + [e])
        invariant pqArray[n..] == old(pqArray[n + 1..])
      {
        FatherDown(s, f, e);
        s := f;
        f := Father(s);
      }
      FillHole(pqArray[..n], s, e);
      ghost var q := pqArray[..n];
      pqArray[s] := Element(data, priority);
      assert pqArray[..n] == q[s := e];
    }

    /** pq_push. */
    method Push(data: int, priority: int)
      requires Valid()
      modifies this, pqArray
      ensures Valid()
      ensures multiset(Contents()) == old(multiset(Contents())) + multiset{Element(data, priority)}
      ensures n == old(n) + 1
      ensures alloc == if old(n >= alloc) then 2 * old(alloc) else old(alloc)
      ensures pqArray == old(pqArray) || fresh(pqArray)
      ensures old(n < alloc) ==> pqArray == old(pqArray) && pqArray[n..] == old(pqArray[n + 1..])
    {
      if n >= alloc {
        Resize(2 * alloc);
      }
      SiftUp(data, priority);
    }

    /** The body of the do-while loop of pq_adjusttree: the lesser son moves up into the hole. */
    method SinkOne(p: nat, s1: nat, s2: nat, ghost root: Element) returns (s: nat)
      requires Sized() && p < n && s1 == 2 * p + 1 < n && s2 == 2 * p + 2
      requires HeapAround(pqArray[..n], p)
      modifies pqArray
      ensures p < s < n && HeapAround(pqArray[..n], s)
      ensures multiset(pqArray[..n][s := root]) == old(multiset(pqArray[..n][p := root]))
      ensures pqArray[n..] == old(pqArray[n..])
    {
      hide HeapAround;
      ghost var q := pqArray[..n];
      if s2 > n - 1 || pqArray[s1].priority < pqArray[s2].priority {
        s := s1;
      } else {
        s := s2;
      }
      HoleDown(q, p, s);
      MoveHole(q, p, s, root);
      pqArray[p] := pqArray[s];
      assert pqArray[..n] == q[p := q[s]];
    }

    /** That loop: the hole at the root sinks along the lesser sons to the leaf p. */
    method SinkHole() returns (p: nat)
      requires Valid() && n >= 2
      modifies pqArray
      ensures p < n && n <= 2 * p + 1 && HeapAround(pqArray[..n], p)
      ensures multiset(pqArray[..n][p := old(pqArray[0])]) == old(multiset(pqArray[..n]))
    {
      ghost var root := pqArray[0];
      p := 0;
      var s1, s2 := 1, 2;
      assert pqArray[..n][0 := root] == pqArray[..n];
      while s1 <= n - 1
        invariant p < n && s1 == 2 * p + 1 && s2 == 2 * p + 2
        invariant HeapAround(pqArray[..n], p)
        invariant multiset(pqArray[..n][p := root]) == old(multiset(pqArray[..n]))
        decreases n - p
      {
        hide HeapAround;
        p := SinkOne(p, s1, s2, root);
        s1, s2 := 2 * p + 1, 2 * p + 2;
      }
    }

    /** The elements in use while those from `current` on wait to be pushed again. */
    ghost function Split(size: nat, current: nat): multiset<Element>
      reads this, pqArray
      requires n <= current <= size <= pqArray.Length
    {
      multiset(pqArray[..n]) + multiset(pqArray[current..size])
    }

    /** One turn of the second loop: the element at `current` is pushed onto the heap before it. */
    method PushAgain(current: nat, size: nat)
      requires Valid() && n == current - 1 && current < size <= alloc
      modifies this, pqArray
      ensures Valid() && n == current && pqArray == old(pqArray) && alloc == old(alloc)
      ensures Split(size, current + 1) == old(Split(size, current))
    {
      ghost var e := pqArray[current];
      ghost var rest := pqArray[current + 1..size];
      assert pqArray[current..size] == [e] + rest;
      ghost var tail := pqArray[n + 1..];
      assert tail[1..size - current] == rest;
      Push(pqArray[current].data, pqArray[current].priority);
      assert pqArray[current + 1..size] == pqArray[n..][1..size - current];
      assert pqArray[current + 1..size] == rest;
    }

    /** The second loop of pq_adjusttree: every element behind the leaf p is pushed again. */
    method PushRest(p: nat, size: nat)
      requires Valid() && n == p < size <= alloc
      modifies this, pqArray
      ensures Valid() && n == size - 1 && pqArray == old(pqArray) && alloc == old(alloc)
      ensures Split(size, size) == old(Split(size, p + 1))
    {
      hide Heap, Split;
      var current := p + 1;
      while current != size
        invariant p < current <= size && n == current - 1 && size <= alloc
        invariant Valid() && pqArray == old(pqArray) && alloc == old(alloc)
        invariant Split(size, current) == old(Split(size, p + 1))
        decreases size - current
      {
        PushAgain(current, size);
        current := current + 1;
      }
    }

    /** The first part of pq_adjusttree: the elements before and behind the sunk hole are all but the root. */
    method OpenHole() returns (p: nat)
      requires Valid() && n >= 2
      modifies pqArray
      ensures p < n && n <= 2 * p + 1 && Heap(pqArray[..p])
      ensures multiset(pqArray[..p]) + multiset(pqArray[p + 1..n]) == old(multiset(pqArray[..n]) - multiset{pqArray[0]})
    {
      hide Heap, HeapAround;
      ghost var root := pqArray[0];
      p := SinkHole();
      BeforeLeaf(pqArray[..n], p);
      WithoutHole(pqArray[..n], p, root);
      assert pqArray[..n][..p] == pqArray[..p];
      assert pqArray[..n][p + 1..] == pqArray[p + 1..n];
    }

    /** pq_adjusttree: removes the root of a heap of two or more. */
    method AdjustTree()
      requires Valid() && n >= 2
      modifies this, pqArray
      ensures Valid()
      ensures multiset(Contents()) == old(multiset(Contents()) - multiset{pqArray[0]})
      ensures n == old(n) - 1
      ensures alloc == if 4 <= n < old(alloc) / 2 then old(alloc) / 2 else old(alloc)
      ensures pqArray == old(pqArray) || fresh(pqArray)
    {
      hide Heap;
      var size := n;
      var p := OpenHole();
      n := p;
      PushRest(p, size);  // leaves n == size - 1
      assert multiset(pqArray[size..size]) == multiset{};
      if n < alloc / 2 && n >= 4 {
        Resize(alloc / 2);
      }
    }

    /** pq_pop; on an empty queue it returns 0 and changes nothing. */
    method Pop() returns (out: int)
      requires Valid()
      modifies this, pqArray
      ensures Valid()
      ensures old(n) == 0 ==>
        out == 0 && n == 0 && alloc == old(alloc) && pqArray == old(pqArray) && pqArray[..] == old(pqArray[..])
      ensures alloc == if old(n) >= 2 && 4 <= n < old(alloc) / 2 then old(alloc) / 2 else old(alloc)
      ensures old(n) > 0 ==>
        && out == old(pqArray[0].data)
        && (forall e :: e in old(Contents()) ==> old(pqArray[0].priority) <= e.priority)
        && multiset(Contents()) == old(multiset(Contents()) - multiset{pqArray[0]})
        && n == old(n) - 1
      ensures pqArray == old(pqArray) || fresh(pqArray)
    {
      if n == 0 {
        return 0;
      }
      RootIsLeastOfAll(pqArray[..n]);
      assert pqArray[..n] == [pqArray[0]] + pqArray[1..n];
      out := pqArray[0].data;
      if n == 1 {
        n := 0;
      } else {
        AdjustTree();
      }
    }
  }

  lemma {:induction false} RemovedWithin(a: seq<Element>, b: seq<Element>, e: Element)
    requires multiset(a) == multiset(b) - multiset{e}
    ensures forall x :: x in a ==> x in b
  {
    forall x | x in a ensures x in b {
      assert x in multiset(a);
    }
  }

  ghost predicate Ascending(s: seq<Element>) {
    forall i, j :: 0 <= i < j < |s| ==> s[i].priority <= s[j].priority
  }

  /** `order` came out so far, `rest` is still in the queue. */
  ghost predicate Draining(order: seq<Element>, rest: seq<Element>) {
    Ascending(order) && forall a, b :: a in order && b in rest ==> a.priority <= b.priority
  }

  lemma {:induction false} DrainOne(order: seq<Element>, rest: seq<Element>, rest': seq<Element>, e: Element)
    requires Draining(order, rest) && e in rest
    requires forall b :: b in rest' ==> b in rest && e.priority <= b.priority
    ensures Draining(order + [e], rest')
  {
  }

  /** Pushes the elements in order. */
  method PushAll(q: Pq, es: seq<Element>)
    requires q.Valid() && q.n == 0
    modifies q, q.pqArray
    ensures q.Valid() && multiset(q.Contents()) == multiset(es)
    ensures q.pqArray == old(q.pqArray) || fresh(q.pqArray)
  {
    hide Heap;
    var i := 0;
    while i < |es|
      invariant 0 <= i <= |es| && q.Valid()
      invariant q.pqArray == old(q.pqArray) || fresh(q.pqArray)
      invariant multiset(q.Contents()) == multiset(es[..i])
    {
      assert es[..i + 1] == es[..i] + [es[i]];
      q.Push(es[i].data, es[i].priority);
      i := i + 1;
    }
    assert es[..i] == es;
  }

  /** One pop of a queue that is drained: e is the element it took out. */
  method PopNext(q: Pq) returns (data: int, ghost e: Element)
    requires q.Valid() && q.n > 0
    modifies q, q.pqArray
    ensures q.Valid() && q.n == old(q.n) - 1
    ensures q.pqArray == old(q.pqArray) || fresh(q.pqArray)
    ensures data == e.data && e in old(q.Contents())
    ensures multiset(q.Contents()) + multiset{e} == old(multiset(q.Contents()))
    ensures forall b :: b in q.Contents() ==> b in old(q.Contents()) && e.priority <= b.priority
  {
    e := q.pqArray[0];
    ghost var before := q.Contents();
    assert before[0] == e && e in multiset(before);
    data := q.Pop();
    RemovedWithin(q.Contents(), before, e);
  }

  function Datas(es: seq<Element>): (r: seq<int>)
    ensures |r| == |es| && forall i :: 0 <= i < |es| ==> r[i] == es[i].data
  {
    seq(|es|, i requires 0 <= i < |es| => es[i].data)
  }

  lemma {:induction false} DatasAppend(es: seq<Element>, e: Element)
    ensures Datas(es + [e]) == Datas(es) + [e.data]
  {
  }

  lemma {:induction false} NoDatas()
    ensures Datas([]) == []
  {
  }

  /** out is the data of the elements es in some order of non-decreasing priority. */
  ghost predicate InPriorityOrder(es: seq<Element>, out: seq<int>) {
    exists order :: multiset(order) == multiset(es) && Ascending(order) && out == Datas(order)
  }

  /** Pushing any elements and popping them all gives them back in order of priority. */
  method PushAllPopAll(es: seq<Element>) returns (out: seq<int>)
    ensures InPriorityOrder(es, out)
  {
    hide Heap, Datas;
    var q := new Pq(|es|);
    PushAll(q, es);
    out := [];
    NoDatas();
    ghost var order: seq<Element> := [];
    while q.n > 0
      invariant q.Valid() && fresh(q) && fresh(q.pqArray)
      invariant multiset(order) + multiset(q.Contents()) == multiset(es)
      invariant Draining(order, q.Contents())
      invariant out == Datas(order)
      decreases q.n
    {
      hide Draining;
      ghost var e, before := *, q.Contents();
      var data;
      data, e := PopNext(q);
      DrainOne(order, before, q.Contents(), e);
      DatasAppend(order, e);
      out := out + [data];
      order := order + [e];
    }
    assert multiset(q.Contents()) == multiset{};
  }
}
