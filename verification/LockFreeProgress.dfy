/**
  Progress of the lock-free ring queue: exactly when a thread that runs alone gets through push or pop, after
  how many steps, and with what effect.
*/
module LockFreeProgress {
  import opened LockFreeQueue

  /** Where one thread gets with consecutive actions, none of them a slot access: its side and the other
      side's watermark. */
  datatype Alone<T> = AtSlot | Reached(side: Side<T>, mark: nat)

  function Moves<T>(me: Side<T>, other: Side<T>, i: nat, slack: nat, arg: T, n: nat): (r: Alone<T>)
    requires i < |me.threads|
    ensures r.Reached? ==> |r.side.threads| == |me.threads|
    decreases n
  {
    if n == 0 then Reached(me, other.mark)
    else if me.threads[i].pc.Access? then AtSlot
    else
      var (me1, mark1) := Move(me, other, i, slack, arg);
      Moves(me1, other.(mark := mark1), i, slack, arg, n - 1)
  }

  /** The watermark a scan arrives at when nobody else moves: position k and later ones are still to be looked at. */
  function Lowest<T>(s: Side<T>, min: nat, k: nat): (r: nat)
    decreases |s.threads| - k
  {
    if k >= |s.threads| then min else Lowest(s, Lower(s.threads[k].pub, min), k + 1)
  }

  /** Ticket t is within slack of the ticket counter and of every published position. */
  predicate Within<T>(s: Side<T>, slack: nat, t: nat) {
    && t < s.next + slack
    && forall j :: 0 <= j < |s.threads| && s.threads[j].pub.At? ==> t < s.threads[j].pub.pos + slack
  }

  lemma {:induction false} LowestIsLeast<T>(s: Side<T>, min: nat, k: nat, slack: nat, t: nat)
    requires k <= |s.threads|
    ensures t < Lowest(s, min, k) + slack
       <==> && t < min + slack
            && forall j :: k <= j < |s.threads| && s.threads[j].pub.At? ==> t < s.threads[j].pub.pos + slack
    decreases |s.threads| - k
  {
    if k < |s.threads| {
      LowestIsLeast(s, Lower(s.threads[k].pub, min), k + 1, slack, t);
    }
  }

  /** A thread that runs alone gets past the loop: at once, or with the watermark of its first rescan. */
  predicate GetsThrough<T>(me: Side<T>, other: Side<T>, slack: nat) {
    me.next < other.mark + slack || Within(other, slack, me.next)
  }

  lemma {:induction false} PutTwice<T>(s: seq<Thread<T>>, i: nat)
    requires i < |s|
    ensures forall x, y {:trigger s[i := x][i := y]} :: s[i := x][i := y] == s[i := y]
    ensures s[i := s[i]] == s
  {
  }

  lemma {:induction false} MovesCompose<T>(me: Side<T>, other: Side<T>, i: nat, slack: nat, arg: T, n: nat, k: nat)
    requires i < |me.threads| && Moves(me, other, i, slack, arg, n).Reached?
    ensures var mid := Moves(me, other, i, slack, arg, n);
      Moves(me, other, i, slack, arg, n + k) == Moves(mid.side, other.(mark := mid.mark), i, slack, arg, k)
    decreases n
  {
    if n > 0 {
      var (me1, mark1) := Move(me, other, i, slack, arg);
      MovesCompose(me1, other.(mark := mark1), i, slack, arg, n - 1, k);
    }
  }

  /** Five actions publish a position, take a ticket and record it. */
  lemma {:induction false} TicketAlone<T>(me: Side<T>, other: Side<T>, i: nat, slack: nat, arg: T)
    requires i < |me.threads| && me.threads[i].pc.Out?
    ensures Moves(me, other, i, slack, arg, 5)
         == Reached(Put(me.(next := me.next + 1), i, Thread(Test, At(me.next), me.next, arg)), other.mark)
  {
    var th := me.threads[i];
    PutTwice(me.threads, i);
    var a := Put(me, i, th.(pc := Load, item := arg));
    var b := Put(me, i, th.(pc := Publish(me.next), item := arg));
    var c := Put(me, i, Thread(Take, At(me.next), th.ticket, arg));
    var d := Put(me.(next := me.next + 1), i, Thread(Record, At(me.next), me.next, arg));
    var e := Put(me.(next := me.next + 1), i, Thread(Test, At(me.next), me.next, arg));
    assert other.(mark := other.mark) == other;
    assert Moves(e, other, i, slack, arg, 0) == Reached(e, other.mark);
    assert Moves(d, other, i, slack, arg, 1) == Reached(e, other.mark);
    assert Moves(c, other, i, slack, arg, 2) == Reached(e, other.mark);
    assert Moves(b, other, i, slack, arg, 3) == Reached(e, other.mark);
    assert Moves(a, other, i, slack, arg, 4) == Reached(e, other.mark);
  }

  /** The scan loop, uninterrupted, stores the lowest of what it looks at as the watermark. */
  lemma {:induction false} ScanAlone<T>(me: Side<T>, other: Side<T>, i: nat, slack: nat, arg: T, min: nat, k: nat)
    requires i < |me.threads| && k <= |other.threads| && me.threads[i].pc == Scan(min, k)
    ensures Moves(me, other, i, slack, arg, |other.threads| - k + 1)
         == Reached(Put(me, i, me.threads[i].(pc := Test)), Lowest(other, min, k))
    decreases |other.threads| - k
  {
    var th := me.threads[i];
    if k < |other.threads| {
      PutTwice(me.threads, i);
      var min1 := Lower(other.threads[k].pub, min);
      var me1 := Put(me, i, th.(pc := Scan(min1, k + 1)));
      assert Move(me, other, i, slack, arg) == (me1, other.mark);
      assert other.(mark := other.mark) == other;
      ScanAlone(me1, other, i, slack, arg, min1, k + 1);
    } else {
      var me1 := Put(me, i, th.(pc := Test));
      assert Move(me, other, i, slack, arg) == (me1, min);
      assert Moves(me1, other.(mark := min), i, slack, arg, 0) == Reached(me1, min);
    }
  }

  /** A failed test, a full scan, and the test that then succeeds. */
  lemma {:induction false} RescanAlone<T>(me: Side<T>, other: Side<T>, i: nat, slack: nat, arg: T)
    requires i < |me.threads| && me.threads[i].pc.Test? && me.threads[i].pub.At?
    requires other.mark + slack <= me.threads[i].pub.pos < Lowest(other, other.next, 0) + slack
    ensures Moves(me, other, i, slack, arg, |other.threads| + 4)
         == Reached(Put(me, i, me.threads[i].(pc := Access)), Lowest(other, other.next, 0))
  {
    var th := me.threads[i];
    var n := |other.threads|;
    var low := Lowest(other, other.next, 0);
    PutTwice(me.threads, i);
    var a := Put(me, i, th.(pc := ScanStart));
    var b := Put(me, i, th.(pc := Scan(other.next, 0)));
    var c := Put(me, i, th.(pc := Access));
    assert other.(mark := other.mark) == other;
    assert Move(me, other, i, slack, arg) == (a, other.mark);
    assert Move(a, other, i, slack, arg) == (b, other.mark);
    assert Moves(b, other, i, slack, arg, n + 2) == Reached(c, low) by {
      ScanAlone(b, other, i, slack, arg, other.next, 0);
      assert Put(b, i, b.threads[i].(pc := Test)) == me;
      MovesCompose(b, other, i, slack, arg, n + 1, 1);
      var other' := other.(mark := low);
      assert Move(me, other', i, slack, arg) == (c, low);
      assert Moves(c, other'.(mark := low), i, slack, arg, 0) == Reached(c, low);
    }
    assert Moves(a, other, i, slack, arg, n + 3) == Reached(c, low);
  }

  /** How many actions a thread that runs alone needs to get from its call to its slot. */
  function ActionsToSlot<T>(me: Side<T>, other: Side<T>, slack: nat): nat {
    if me.next < other.mark + slack then 6 else |other.threads| + 9
  }

  /** A thread that runs alone reaches its slot: at once when the watermark already allows it, otherwise after
      one rescan when the ticket counter and the published positions of the other side do. */
  lemma {:induction false} AloneReachesSlot<T>(me: Side<T>, other: Side<T>, i: nat, slack: nat, arg: T)
    requires i < |me.threads| && me.threads[i].pc.Out? && GetsThrough(me, other, slack)
    ensures Moves(me, other, i, slack, arg, ActionsToSlot(me, other, slack))
        == Reached(Put(me.(next := me.next + 1), i, Thread(Access, At(me.next), me.next, arg)),
                   if me.next < other.mark + slack then other.mark else Lowest(other, other.next, 0))
  {
    TicketAlone(me, other, i, slack, arg);
    PutTwice(me.threads, i);
    var e := Put(me.(next := me.next + 1), i, Thread(Test, At(me.next), me.next, arg));
    var z := Put(me.(next := me.next + 1), i, Thread(Access, At(me.next), me.next, arg));
    assert other.(mark := other.mark) == other;
    if me.next < other.mark + slack {
      MovesCompose(me, other, i, slack, arg, 5, 1);
      assert Move(e, other, i, slack, arg) == (z, other.mark);
      assert Moves(z, other, i, slack, arg, 0) == Reached(z, other.mark);
    } else {
      LowestIsLeast(other, other.next, 0, slack, me.next);
      RescanAlone(e, other, i, slack, arg);
      MovesCompose(me, other, i, slack, arg, 5, |other.threads| + 4);
    }
  }

  /** A thread on its way to, or in, a loop that it cannot leave alone with ticket t. */
  ghost predicate Stuck<T>(me: Side<T>, other: Side<T>, i: nat, slack: nat, t: nat) {
    && i < |me.threads|
    && other.mark + slack <= t && !Within(other, slack, t)
    && var th := me.threads[i];
       match th.pc
       case Out | Load | Publish(_) | Take => me.next == t
       case Record => th.ticket == t
       case Test | ScanStart => th.pub == At(t)
       case Scan(min, k) =>
         && th.pub == At(t) && k <= |other.threads|
         && Lowest(other, min, k) == Lowest(other, other.next, 0)
       case Access | Clear => false
  }

  lemma {:induction false} LowestIgnoresMark<T>(s: Side<T>, mark: nat, min: nat, k: nat)
    ensures Lowest(s.(mark := mark), min, k) == Lowest(s, min, k)
    decreases |s.threads| - k
  {
    if k < |s.threads| {
      LowestIgnoresMark(s, mark, Lower(s.threads[k].pub, min), k + 1);
    }
  }

  lemma {:induction false} MoveStaysStuck<T>(me: Side<T>, other: Side<T>, i: nat, slack: nat, arg: T, t: nat)
    requires Stuck(me, other, i, slack, t)
    ensures var (me1, mark1) := Move(me, other, i, slack, arg);
      Stuck(me1, other.(mark := mark1), i, slack, t)
  {
    var (me1, mark1) := Move(me, other, i, slack, arg);
    var th := me.threads[i];
    if th.pc.Scan? && th.pc.k >= |other.threads| {
      LowestIsLeast(other, other.next, 0, slack, t);
    } else if me1.threads[i].pc.Scan? {
      LowestIgnoresMark(other, mark1, me1.threads[i].pc.min, me1.threads[i].pc.k);
      LowestIgnoresMark(other, mark1, other.next, 0);
    }
  }

  /** A stuck thread that has moved is inside, and stays there. */
  lemma {:induction false} InsideAfterFirst<T>(me: Side<T>, other: Side<T>, i: nat, slack: nat, arg: T, t: nat, n: nat)
    requires Stuck(me, other, i, slack, t) && (n > 0 || !me.threads[i].pc.Out?)
    ensures var r := Moves(me, other, i, slack, arg, n); r.Reached? && !r.side.threads[i].pc.Out?
    decreases n
  {
    if n > 0 {
      MoveStaysStuck(me, other, i, slack, arg, t);
      var (me1, mark1) := Move(me, other, i, slack, arg);
      InsideAfterFirst(me1, other.(mark := mark1), i, slack, arg, t, n - 1);
    }
  }

  lemma {:induction false} RunCompose<T>(q: Queue<T>, a: seq<Action<T>>, b: seq<Action<T>>)
    requires |q.slots| > 0
    ensures Run(q, a + b) == Run(Run(q, a), b)
    decreases |b|
  {
    if b == [] {
      assert a + b == a;
    } else {
      RunCompose(q, a, b[..|b| - 1]);
      assert (a + b)[..|a + b| - 1] == a + b[..|b| - 1];
    }
  }

  function Times<T>(a: Action<T>, n: nat): (r: seq<Action<T>>)
    ensures |r| == n
  {
    if n == 0 then [] else [a] + Times(a, n - 1)
  }

  lemma {:induction false} PushRunIsMoves<T>(q: Queue<T>, i: nat, arg: T, n: nat)
    requires |q.slots| > 0 && i < |q.prod.threads| && Moves(q.prod, q.cons, i, |q.slots|, arg, n).Reached?
    ensures var m := Moves(q.prod, q.cons, i, |q.slots|, arg, n);
      Run(q, Times(Push(i, arg), n)) == q.(prod := m.side, cons := q.cons.(mark := m.mark))
    decreases n
  {
    if n > 0 {
      RunCompose(q, [Push(i, arg)], Times(Push(i, arg), n - 1));
      assert [Push(i, arg)][..0] == [];
      PushRunIsMoves(Step(q, Push(i, arg)), i, arg, n - 1);
    }
  }

  lemma {:induction false} PopRunIsMoves<T>(q: Queue<T>, i: nat, arg: T, n: nat)
    requires |q.slots| > 0 && i < |q.cons.threads| && Moves(q.cons, q.prod, i, 0, arg, n).Reached?
    ensures var m := Moves(q.cons, q.prod, i, 0, arg, n);
      Run(q, Times(Pop(i, arg), n)) == q.(cons := m.side, prod := q.prod.(mark := m.mark))
    decreases n
  {
    if n > 0 {
      RunCompose(q, [Pop(i, arg)], Times(Pop(i, arg), n - 1));
      assert [Pop(i, arg)][..0] == [];
      PopRunIsMoves(Step(q, Pop(i, arg)), i, arg, n - 1);
    }
  }

  lemma {:induction false} TwoMore<T>(q: Queue<T>, a: Action<T>)
    requires |q.slots| > 0
    ensures Run(q, [a, a]) == Step(Step(q, a), a)
  {
    assert [a, a][..1] == [a] && [a][..0] == [];
    assert Run(q, [a]) == Step(q, a);
  }

  lemma {:induction false} FinishPush<T>(q: Queue<T>, i: nat, t: nat, arg: T)
    requires |q.slots| > 0 && i < |q.prod.threads| && q.prod.threads[i] == Thread(Access, At(t), t, arg)
    ensures Run(q, [Push(i, arg), Push(i, arg)])
         == q.(prod := Put(q.prod, i, Thread(Out, Idle, t, arg)),
               slots := q.slots[t % |q.slots| := arg], pushed := q.pushed[t := arg])
  {
    PutTwice(q.prod.threads, i);
    TwoMore(q, Push(i, arg));
    var mid := Step(q, Push(i, arg));
    assert mid == q.(prod := Put(q.prod, i, Thread(Clear, At(t), t, arg)),
                     slots := q.slots[t % |q.slots| := arg], pushed := q.pushed[t := arg]);
    assert mid.cons.(mark := mid.cons.mark) == mid.cons;
  }

  lemma {:induction false} FinishPop<T>(q: Queue<T>, i: nat, t: nat, arg: T)
    requires |q.slots| > 0 && i < |q.cons.threads| && q.cons.threads[i] == Thread(Access, At(t), t, arg)
    ensures var got := q.slots[t % |q.slots|];
      Run(q, [Pop(i, arg), Pop(i, arg)])
        == q.(cons := Put(q.cons, i, Thread(Out, Idle, t, got)), popped := q.popped[t := got])
  {
    var got := q.slots[t % |q.slots|];
    PutTwice(q.cons.threads, i);
    TwoMore(q, Pop(i, arg));
    var mid := Step(q, Pop(i, arg));
    assert mid == q.(cons := Put(q.cons, i, Thread(Clear, At(t), t, got)), popped := q.popped[t := got]);
    assert mid.prod.(mark := mid.prod.mark) == mid.prod;
  }

  /** A push that runs alone stores its pointer in the slot of the next ticket and returns, changing nothing
      else but the watermark, when that or the consumers' positions leave room. */
  lemma {:induction false} PushAloneCompletes<T>(q: Queue<T>, i: nat, arg: T)
    requires |q.slots| > 0 && i < |q.prod.threads| && q.prod.threads[i].pc.Out?
    requires GetsThrough(q.prod, q.cons, |q.slots|)
    ensures var t := q.prod.next;
      var r := Run(q, Times(Push(i, arg), ActionsToSlot(q.prod, q.cons, |q.slots|)) + [Push(i, arg), Push(i, arg)]);
      && r.pushed == q.pushed[t := arg] && r.popped == q.popped
      && r.slots == q.slots[t % |q.slots| := arg]
      && r.prod == Put(q.prod.(next := t + 1), i, Thread(Out, Idle, t, arg))
      && r.cons.next == q.cons.next && r.cons.threads == q.cons.threads
  {
    var n := ActionsToSlot(q.prod, q.cons, |q.slots|);
    AloneReachesSlot(q.prod, q.cons, i, |q.slots|, arg);
    PushRunIsMoves(q, i, arg, n);
    RunCompose(q, Times(Push(i, arg), n), [Push(i, arg), Push(i, arg)]);
    PutTwice(q.prod.threads, i);
    FinishPush(Run(q, Times(Push(i, arg), n)), i, q.prod.next, arg);
  }

  /** A pop that runs alone returns the content of the next ticket's slot, when the watermark or the producers'
      positions say that it was written. */
  lemma {:induction false} PopAloneCompletes<T>(q: Queue<T>, i: nat, arg: T)
    requires |q.slots| > 0 && i < |q.cons.threads| && q.cons.threads[i].pc.Out?
    requires GetsThrough(q.cons, q.prod, 0)
    ensures var t := q.cons.next; var got := q.slots[t % |q.slots|];
      var r := Run(q, Times(Pop(i, arg), ActionsToSlot(q.cons, q.prod, 0)) + [Pop(i, arg), Pop(i, arg)]);
      && r.popped == q.popped[t := got] && r.pushed == q.pushed && r.slots == q.slots
      && r.cons == Put(q.cons.(next := t + 1), i, Thread(Out, Idle, t, got))
      && r.prod.next == q.prod.next && r.prod.threads == q.prod.threads
  {
    var n := ActionsToSlot(q.cons, q.prod, 0);
    AloneReachesSlot(q.cons, q.prod, i, 0, arg);
    PopRunIsMoves(q, i, arg, n);
    RunCompose(q, Times(Pop(i, arg), n), [Pop(i, arg), Pop(i, arg)]);
    PutTwice(q.cons.threads, i);
    FinishPop(Run(q, Times(Pop(i, arg), n)), i, q.cons.next, arg);
  }

  lemma {:induction false} TimesTwoMore<T>(a: Action<T>, n: nat)
    ensures Times(a, n) + [a, a] == Times(a, n + 2)
  {
    if n > 0 {
      TimesTwoMore(a, n - 1);
    } else {
      assert Times(a, 2) == [a] + ([a] + Times(a, 0));
    }
  }

  /** Thread i has returned from its push after n > 0 actions of its own. */
  ghost predicate PushReturns<T>(q: Queue<T>, i: nat, arg: T, n: nat)
    requires |q.slots| > 0
  {
    var r := Run(q, Times(Push(i, arg), n));
    n > 0 && i < |r.prod.threads| && r.prod.threads[i].pc.Out?
  }

  ghost predicate PopReturns<T>(q: Queue<T>, i: nat, arg: T, n: nat)
    requires |q.slots| > 0
  {
    var r := Run(q, Times(Pop(i, arg), n));
    n > 0 && i < |r.cons.threads| && r.cons.threads[i].pc.Out?
  }

  /** Running alone, a push returns after some number of actions exactly when the watermark, or the counter and
      all positions published by consumers, are within a ring of its ticket. */
  lemma {:induction false} PushAloneReturnsIff<T>(q: Queue<T>, i: nat, arg: T)
    requires |q.slots| > 0 && i < |q.prod.threads| && q.prod.threads[i].pc.Out?
    ensures (exists n: nat :: PushReturns(q, i, arg, n)) <==> GetsThrough(q.prod, q.cons, |q.slots|)
  {
    var me, other, slack := q.prod, q.cons, |q.slots|;
    if GetsThrough(me, other, slack) {
      var n := ActionsToSlot(me, other, slack);
      PushAloneCompletes(q, i, arg);
      TimesTwoMore(Push(i, arg), n);
      assert PushReturns(q, i, arg, n + 2);
    } else {
      forall n: nat ensures !PushReturns(q, i, arg, n) {
        if n > 0 {
          InsideAfterFirst(me, other, i, slack, arg, me.next, n);
          PushRunIsMoves(q, i, arg, n);
        }
      }
    }
  }

  lemma {:induction false} PopAloneReturnsIff<T>(q: Queue<T>, i: nat, arg: T)
    requires |q.slots| > 0 && i < |q.cons.threads| && q.cons.threads[i].pc.Out?
    ensures (exists n: nat :: PopReturns(q, i, arg, n)) <==> GetsThrough(q.cons, q.prod, 0)
  {
    var me, other := q.cons, q.prod;
    if GetsThrough(me, other, 0) {
      var n := ActionsToSlot(me, other, 0);
      PopAloneCompletes(q, i, arg);
      TimesTwoMore(Pop(i, arg), n);
      assert PopReturns(q, i, arg, n + 2);
    } else {
      forall n: nat ensures !PopReturns(q, i, arg, n) {
        if n > 0 {
          InsideAfterFirst(me, other, i, 0, arg, me.next, n);
          PopRunIsMoves(q, i, arg, n);
        }
      }
    }
  }
}
