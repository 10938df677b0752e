/**
  What holds in every run of the bounded buffer: no wakeup is lost, and the values taken are those put in. With
  equal total production and consumption somebody can always act until everybody is finished, and that happens
  after a bounded number of actions, each spurious wakeup costing at most two.
*/
module CondVarRuns {
  import opened CondVarBuffer

  lemma {:induction false} StepKeepsInv(s: State, a: Action)
    requires Inv(s)
    ensures Inv(Step(s, a))
  {
    if Enabled(s, a) {
      match a
      case Produce(j) => ProduceKeepsInv(s, j);
      case Consume(j) => ConsumeKeepsInv(s, j);
      case SignalEmpty(j, k) => SignalEmptyKeepsInv(s, j, k);
      case SignalFull(j, k) => SignalFullKeepsInv(s, j, k);
      case SpuriousProducer(j) => SpuriousKeepsInv(s, a);
      case SpuriousConsumer(j) => SpuriousKeepsInv(s, a);
    }
  }

  lemma {:induction false} NothingDone(ts: seq<Thread>)
    requires forall j :: 0 <= j < |ts| ==> ts[j].pc.Ready? && ts[j].done == 0
    ensures Done(ts) == 0
    decreases |ts|
  {
    if ts != [] {
      NothingDone(ts[..|ts| - 1]);
    }
  }

  lemma {:induction false} NothingQueued(ts: seq<Thread>, v: int)
    requires forall j :: 0 <= j < |ts| ==> ts[j].done == 0
    ensures Queued(ts, v) == 0
    decreases |ts|
  {
    if ts != [] {
      NothingQueued(ts[..|ts| - 1], v);
    }
  }

  /** In any run the value v has been put in once by each producer that has queued v items or more. */
  lemma {:induction false} RunQueues(s: State, sched: seq<Action>, v: int)
    requires Init(s)
    ensures Run(s, sched).produced[v] == Queued(Run(s, sched).prods, v)
    decreases |sched|
  {
    if sched == [] {
      NothingQueued(s.prods, v);
    } else {
      RunQueues(s, sched[..|sched| - 1], v);
      StepQueues(Run(s, sched[..|sched| - 1]), sched[|sched| - 1], v);
    }
  }

  /** How many of the threads queue the value v when they do all their loops. */
  function ToQueue(ts: seq<Thread>, v: int): nat
    decreases |ts|
  {
    if ts == [] then 0 else ToQueue(ts[..|ts| - 1], v) + (if 1 <= v <= ts[|ts| - 1].loops then 1 else 0)
  }

  lemma {:induction false} SameLoops(ts: seq<Thread>, us: seq<Thread>, v: int)
    requires |us| == |ts| && forall j :: 0 <= j < |ts| ==> us[j].loops == ts[j].loops
    ensures ToQueue(us, v) == ToQueue(ts, v)
    decreases |ts|
  {
    if ts != [] {
      SameLoops(ts[..|ts| - 1], us[..|us| - 1], v);
    }
  }

  lemma {:induction false} RunKeepsToQueue(s: State, sched: seq<Action>, v: int)
    requires s.index1 <= |s.buffer|
    ensures ToQueue(Run(s, sched).prods, v) == ToQueue(s.prods, v)
    decreases |sched|
  {
    if sched != [] {
      var u := Run(s, sched[..|sched| - 1]);
      RunKeepsToQueue(s, sched[..|sched| - 1], v);
      SameLoops(u.prods, Step(u, sched[|sched| - 1]).prods, v);
    }
  }

  lemma {:induction false} AllQueued(ts: seq<Thread>, v: int)
    requires forall j :: 0 <= j < |ts| ==> ts[j].done == ts[j].loops
    ensures Queued(ts, v) == ToQueue(ts, v)
    decreases |ts|
  {
    if ts != [] {
      AllQueued(ts[..|ts| - 1], v);
    }
  }

  /** No wakeup is lost in any run, spurious ones included, and the values taken are values put in. */
  lemma {:induction false} RunKeepsInv(s: State, sched: seq<Action>)
    requires Init(s)
    ensures Inv(Run(s, sched))
    decreases |sched|
  {
    if sched == [] {
      NothingDone(s.prods);
      NothingDone(s.cons);
      NumZero(s.prods, Asleep);
      NumZero(s.cons, Asleep);
    } else {
      RunKeepsInv(s, sched[..|sched| - 1]);
      StepKeepsInv(Run(s, sched[..|sched| - 1]), sched[|sched| - 1]);
    }
  }

  lemma {:induction false} StepKeepsLoops(s: State, a: Action)
    requires s.index1 <= |s.buffer|
    ensures Loops(Step(s, a).prods) == Loops(s.prods) && Loops(Step(s, a).cons) == Loops(s.cons)
  {
    if Enabled(s, a) {
      var r := Step(s, a);
      if a.j < |s.prods| { Replace(s.prods, a.j, r.prods[a.j]); }
      if a.j < |s.cons| { Replace(s.cons, a.j, r.cons[a.j]); }
      if a.SignalEmpty? && a.k < |s.cons| { Replace(s.cons, a.k, r.cons[a.k]); }
      if a.SignalFull? && a.k < |s.prods| { Replace(s.prods, a.k, r.prods[a.k]); }
    }
  }

  lemma {:induction false} RunKeepsLoops(s: State, sched: seq<Action>)
    requires s.index1 <= |s.buffer|
    ensures Loops(Run(s, sched).prods) == Loops(s.prods) && Loops(Run(s, sched).cons) == Loops(s.cons)
    decreases |sched|
  {
    if sched != [] {
      RunKeepsLoops(s, sched[..|sched| - 1]);
      StepKeepsLoops(Run(s, sched[..|sched| - 1]), sched[|sched| - 1]);
    }
  }

  // ---------------------------------------------------------------- no deadlock, and termination

  predicate Finished(t: Thread) {
    t.pc.Ready? && t.done == t.loops
  }

  predicate Idle(t: Thread) {
    t.pc.Asleep? || Finished(t)
  }

  predicate AllFinished(s: State) {
    && (forall j :: 0 <= j < |s.prods| ==> Finished(s.prods[j]))
    && (forall j :: 0 <= j < |s.cons| ==> Finished(s.cons[j]))
  }

  predicate AsleepOrFinished(ts: seq<Thread>) {
    forall j :: 0 <= j < |ts| ==> Idle(ts[j])
  }

  predicate Spurious(a: Action) {
    a.SpuriousProducer? || a.SpuriousConsumer?
  }

  /** When everybody sleeps or is finished, everybody is finished. */
  lemma {:induction false} NotAllAsleep(s: State)
    requires Inv(s) && |s.buffer| > 0 && Loops(s.prods) == Loops(s.cons)
    requires AsleepOrFinished(s.prods) && AsleepOrFinished(s.cons)
    ensures AllFinished(s)
  {
    NumZero(s.prods, Signal);
    NumZero(s.prods, Woken);
    NumZero(s.prods, Asleep);
    NumZero(s.cons, Signal);
    NumZero(s.cons, Woken);
    NumZero(s.cons, Asleep);
    assert forall j :: 0 <= j < |s.prods| ==> ThreadOk(s.prods[j]);
    assert forall j :: 0 <= j < |s.cons| ==> ThreadOk(s.cons[j]);
    AllDone(s.prods);
    AllDone(s.cons);
  }

  lemma {:induction false} Sleeper(ts: seq<Thread>) returns (k: nat)
    ensures MayWake(ts, k)
  {
    NumZero(ts, Asleep);
    if Num(ts, Asleep) == 0 {
      k := |ts|;
    } else {
      k :| k < |ts| && ts[k].pc.Asleep?;
    }
  }

  lemma {:induction false} ProducerCanMove(s: State, j: nat)
    requires Inv(s) && j < |s.prods| && !Idle(s.prods[j])
    ensures exists a :: Enabled(s, a) && !Spurious(a)
  {
    assert ThreadOk(s.prods[j]);
    if s.prods[j].pc.Signal? {
      var k := Sleeper(s.cons);
      assert Enabled(s, SignalEmpty(j, k));
    } else {
      assert Enabled(s, Produce(j));
    }
  }

  lemma {:induction false} ConsumerCanMove(s: State, j: nat)
    requires Inv(s) && j < |s.cons| && !Idle(s.cons[j])
    ensures exists a :: Enabled(s, a) && !Spurious(a)
  {
    assert ThreadOk(s.cons[j]);
    if s.cons[j].pc.Signal? {
      var k := Sleeper(s.prods);
      assert Enabled(s, SignalFull(j, k));
    } else {
      assert Enabled(s, Consume(j));
    }
  }

  /** In no reachable state is every unfinished thread asleep: with equal total production and consumption,
      some thread can act, without a spurious wakeup, until all are finished. */
  lemma {:induction false} NoDeadlock(s: State, sched: seq<Action>)
    requires Init(s) && Loops(s.prods) == Loops(s.cons)
    ensures var r := Run(s, sched); AllFinished(r) || exists a :: Enabled(r, a) && !Spurious(a)
  {
    hide Enabled, Inv, Run;
    RunKeepsInv(s, sched);
    RunKeepsLoops(s, sched);
    var r := Run(s, sched);
    if j: nat :| j < |r.prods| && !Idle(r.prods[j]) {
      ProducerCanMove(r, j);
    } else if j: nat :| j < |r.cons| && !Idle(r.cons[j]) {
      ConsumerCanMove(r, j);
    } else {
      NotAllAsleep(r);
    }
  }

  /** Bounds the actions still possible when no further wakeup is spurious. */
  function Measure(s: State): int {
    4 * (Loops(s.prods) - Done(s.prods) + Loops(s.cons) - Done(s.cons))
    + 3 * (Num(s.prods, Signal) + Num(s.cons, Signal))
    + Num(s.prods, Woken) + Num(s.cons, Woken) + Num(s.prods, Ready) + Num(s.cons, Ready)
  }

  lemma {:induction false} MeasureDrops(s: State, a: Action)
    requires s.index1 <= |s.buffer| && Enabled(s, a) && !Spurious(a)
    ensures Measure(Step(s, a)) < Measure(s)
  {
    hide Num, Done, Loops;
    var r := Step(s, a);
    match a
    case Produce(j) => Replace(s.prods, j, r.prods[j]);
    case Consume(j) => Replace(s.cons, j, r.cons[j]);
    case SignalEmpty(j, k) =>
      Replace(s.prods, j, r.prods[j]);
      if k < |s.cons| { Replace(s.cons, k, r.cons[k]); }
    case SignalFull(j, k) =>
      Replace(s.cons, j, r.cons[j]);
      if k < |s.prods| { Replace(s.prods, k, r.prods[k]); }
  }

  /** A spurious wakeup gives its thread one more turn. */
  lemma {:induction false} SpuriousAddsOne(s: State, a: Action)
    requires s.index1 <= |s.buffer| && Enabled(s, a) && Spurious(a)
    ensures Measure(Step(s, a)) == Measure(s) + 1
  {
    hide Num, Done, Loops;
    var r := Step(s, a);
    if a.SpuriousProducer? {
      Replace(s.prods, a.j, r.prods[a.j]);
    } else {
      Replace(s.cons, a.j, r.cons[a.j]);
    }
  }

  /** Every action of the schedule happens. */
  predicate Effective(s: State, sched: seq<Action>)
    requires s.index1 <= |s.buffer|
    decreases |sched|
  {
    sched == [] ||
    (var init := sched[..|sched| - 1]; var a := sched[|sched| - 1];
     Effective(s, init) && Enabled(Run(s, init), a))
  }

  function SpuriousIn(sched: seq<Action>): nat
    decreases |sched|
  {
    if sched == [] then 0
    else SpuriousIn(sched[..|sched| - 1]) + if Spurious(sched[|sched| - 1]) then 1 else 0
  }

  /** Each action uses up the measure; a spurious wakeup adds one to it and is itself one action. */
  lemma {:induction false} RunsAreShort(s: State, sched: seq<Action>)
    requires Init(s) && Effective(s, sched)
    ensures |sched| + Measure(Run(s, sched)) <= Measure(s) + 2 * SpuriousIn(sched)
    decreases |sched|
  {
    if sched != [] {
      var before, a := sched[..|sched| - 1], sched[|sched| - 1];
      RunsAreShort(s, before);
      if Spurious(a) {
        SpuriousAddsOne(Run(s, before), a);
      } else {
        MeasureDrops(Run(s, before), a);
      }
      hide Measure, Enabled, Step;
    }
  }

  lemma {:induction false} InitialMeasure(ts: seq<Thread>)
    requires forall j :: 0 <= j < |ts| ==> ts[j].pc.Ready? && ts[j].done == 0
    ensures Num(ts, Ready) == |ts| && Num(ts, Signal) == Num(ts, Woken) == 0 && Done(ts) == 0
    decreases |ts|
  {
    if ts != [] {
      InitialMeasure(ts[..|ts| - 1]);
    }
  }

  /** Every run ends after at most four actions per item on each side, one per thread and two per spurious wakeup,
      and when nothing but a spurious wakeup can happen, every thread has done all its loops, the buffer is empty
      and exactly the values produced were consumed. */
  lemma {:induction false} RunsComplete(s: State, sched: seq<Action>)
    requires Init(s) && Loops(s.prods) == Loops(s.cons) && Effective(s, sched)
    ensures |sched| <= 8 * Loops(s.prods) + |s.prods| + |s.cons| + 2 * SpuriousIn(sched)
    ensures var r := Run(s, sched);
      (forall a :: Enabled(r, a) ==> Spurious(a)) ==>
        && AllFinished(r) && r.index1 == 0 && Done(r.cons) == Loops(s.cons)
        && r.consumed == r.produced && forall v :: r.consumed[v] == ToQueue(s.prods, v)
  {
    hide Num, Done, Loops;
    RunKeepsInv(s, sched);
    RunKeepsLoops(s, sched);
    RunsAreShort(s, sched);
    InitialMeasure(s.prods);
    InitialMeasure(s.cons);
    var r := Run(s, sched);
    assert forall j :: 0 <= j < |r.prods| ==> ThreadOk(r.prods[j]);
    assert forall j :: 0 <= j < |r.cons| ==> ThreadOk(r.cons[j]);
    AllDone(r.prods);
    AllDone(r.cons);
    if forall a :: Enabled(r, a) ==> Spurious(a) {
      NoDeadlock(s, sched);
      assert r.buffer[..0] == [];
      forall v ensures r.produced[v] == ToQueue(s.prods, v) {
        RunQueues(s, sched, v);
        RunKeepsToQueue(s, sched, v);
        AllQueued(r.prods, v);
      }
    }
  }
}
