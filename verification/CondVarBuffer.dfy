/**
  The bounded buffer of concurrency/producerconsumer_condv2.c: any number of producers and consumers, one
  mutex, and two condition variables that are signalled after the mutex is released.

  What a thread does between lock and unlock (or wait) is one action; pthread_cond_signal wakes one sleeper
  chosen by the scheduler, if there is one; a sleeper may also wake for no reason.
*/
module CondVarBuffer {

  datatype Pc =
    | Ready     // at the head of the loop, or done
    | Asleep    // in pthread_cond_wait
    | Woken     // returning from it, about to test the condition again
    | Signal    // mutex released, about to signal

  /** done counts the items this thread has queued or taken so far, of `loops`. */
  datatype Thread = Thread(pc: Pc, done: nat, loops: nat)

  /** buffer and index1 are the program's; produced and consumed record all values that went in and out. */
  datatype State = State(prods: seq<Thread>, cons: seq<Thread>, buffer: seq<int>, index1: nat,
                         produced: multiset<int>, consumed: multiset<int>)

  datatype Action =
    | Produce(j: nat)
    | Consume(j: nat)
    | SignalEmpty(j: nat, k: nat)   // producer j signals empty_cond; consumer k wakes
    | SignalFull(j: nat, k: nat)    // consumer j signals full_cond; producer k wakes
    | SpuriousProducer(j: nat)
    | SpuriousConsumer(j: nat)

  predicate Wants(t: Thread) {
    t.pc.Woken? || (t.pc.Ready? && t.done < t.loops)
  }

  function Num(ts: seq<Thread>, pc: Pc): nat
    decreases |ts|
  {
    if ts == [] then 0 else Num(ts[..|ts| - 1], pc) + (if ts[|ts| - 1].pc == pc then 1 else 0)
  }

  /** k is the sleeper to wake, if anybody sleeps. */
  predicate MayWake(ts: seq<Thread>, k: nat) {
    if Num(ts, Asleep) == 0 then k == |ts| else k < |ts| && ts[k].pc.Asleep?
  }

  predicate Enabled(s: State, a: Action) {
    match a
    case Produce(j) => j < |s.prods| && Wants(s.prods[j])
    case Consume(j) => j < |s.cons| && Wants(s.cons[j])
    case SignalEmpty(j, k) => j < |s.prods| && s.prods[j].pc.Signal? && MayWake(s.cons, k)
    case SignalFull(j, k) => j < |s.cons| && s.cons[j].pc.Signal? && MayWake(s.prods, k)
    case SpuriousProducer(j) => j < |s.prods| && s.prods[j].pc.Asleep?
    case SpuriousConsumer(j) => j < |s.cons| && s.cons[j].pc.Asleep?
  }

  function SetPc(ts: seq<Thread>, j: nat, pc: Pc): (r: seq<Thread>)
    ensures |r| == |ts|
  {
    if j < |ts| then ts[j := ts[j].(pc := pc)] else ts
  }

  /** An action that is not enabled does nothing. */
  function Step(s: State, a: Action): (r: State)
    requires s.index1 <= |s.buffer|
    ensures r.index1 <= |r.buffer| == |s.buffer|
  {
    if !Enabled(s, a) then s else
      match a
      case Produce(j) =>
        if s.index1 == |s.buffer| then s.(prods := SetPc(s.prods, j, Asleep))
        else
          var t := s.prods[j];
          s.(prods := s.prods[j := t.(pc := Signal, done := t.done + 1)],
             buffer := s.buffer[s.index1 := t.done + 1], index1 := s.index1 + 1,
             produced := s.produced + multiset{t.done + 1})
      case Consume(j) =>
        if s.index1 == 0 then s.(cons := SetPc(s.cons, j, Asleep))
        else
          var t := s.cons[j];
          s.(cons := s.cons[j := t.(pc := Signal, done := t.done + 1)],
             index1 := s.index1 - 1,
             consumed := s.consumed + multiset{s.buffer[s.index1 - 1]})
      case SignalEmpty(j, k) => s.(prods := SetPc(s.prods, j, Ready), cons := SetPc(s.cons, k, Woken))
      case SignalFull(j, k) => s.(cons := SetPc(s.cons, j, Ready), prods := SetPc(s.prods, k, Woken))
      case SpuriousProducer(j) => s.(prods := SetPc(s.prods, j, Woken))
      case SpuriousConsumer(j) => s.(cons := SetPc(s.cons, j, Woken))
  }

  function Run(s: State, sched: seq<Action>): (r: State)
    requires s.index1 <= |s.buffer|
    ensures r.index1 <= |r.buffer| == |s.buffer|
    decreases |sched|
  {
    if sched == [] then s else Step(Run(s, sched[..|sched| - 1]), sched[|sched| - 1])
  }

  // ---------------------------------------------------------------- counting threads

  function Done(ts: seq<Thread>): nat
    decreases |ts|
  {
    if ts == [] then 0 else Done(ts[..|ts| - 1]) + ts[|ts| - 1].done
  }

  function Loops(ts: seq<Thread>): nat
    decreases |ts|
  {
    if ts == [] then 0 else Loops(ts[..|ts| - 1]) + ts[|ts| - 1].loops
  }

  lemma {:induction false} Replace(ts: seq<Thread>, j: nat, t: Thread)
    requires j < |ts|
    ensures forall pc :: Num(ts[j := t], pc)
              == Num(ts, pc) - (if ts[j].pc == pc then 1 else 0) + (if t.pc == pc then 1 else 0)
    ensures Done(ts[j := t]) == Done(ts) - ts[j].done + t.done
    ensures Loops(ts[j := t]) == Loops(ts) - ts[j].loops + t.loops
    decreases |ts|
  {
    var init := ts[..|ts| - 1];
    if j < |ts| - 1 {
      Replace(init, j, t);
      assert ts[j := t][..|ts| - 1] == init[j := t];
    } else {
      assert ts[j := t][..|ts| - 1] == init;
    }
  }

  lemma {:induction false} NumZero(ts: seq<Thread>, pc: Pc)
    ensures Num(ts, pc) == 0 <==> forall j :: 0 <= j < |ts| ==> ts[j].pc != pc
    decreases |ts|
  {
    if ts != [] {
      NumZero(ts[..|ts| - 1], pc);
      assert forall j :: 0 <= j < |ts| - 1 ==> ts[..|ts| - 1][j] == ts[j];
    }
  }

  /** Work left is zero exactly when everybody has done all loops. */
  lemma {:induction false} AllDone(ts: seq<Thread>)
    requires forall j :: 0 <= j < |ts| ==> ts[j].done <= ts[j].loops
    ensures Done(ts) <= Loops(ts)
    ensures Done(ts) == Loops(ts) <==> forall j :: 0 <= j < |ts| ==> ts[j].done == ts[j].loops
    decreases |ts|
  {
    if ts != [] {
      var init := ts[..|ts| - 1];
      assert forall j :: 0 <= j < |init| ==> init[j] == ts[j];
      AllDone(init);
    }
  }

  // ---------------------------------------------------------------- what the producers put in

  /** How many of the threads have queued the value v, when each queues 1, 2, 3, ... */
  function Queued(ts: seq<Thread>, v: int): nat
    decreases |ts|
  {
    if ts == [] then 0 else Queued(ts[..|ts| - 1], v) + (if 1 <= v <= ts[|ts| - 1].done then 1 else 0)
  }

  lemma {:induction false} QueuedReplace(ts: seq<Thread>, j: nat, t: Thread, v: int)
    requires j < |ts|
    ensures Queued(ts[j := t], v)
         == Queued(ts, v) - (if 1 <= v <= ts[j].done then 1 else 0) + (if 1 <= v <= t.done then 1 else 0)
    decreases |ts|
  {
    var init := ts[..|ts| - 1];
    if j < |ts| - 1 {
      QueuedReplace(init, j, t, v);
      assert ts[j := t][..|ts| - 1] == init[j := t];
    } else {
      assert ts[j := t][..|ts| - 1] == init;
    }
  }

  // ---------------------------------------------------------------- the invariant

  predicate ThreadOk(t: Thread) {
    t.done <= t.loops && (t.pc.Asleep? || t.pc.Woken? ==> t.done < t.loops)
  }

  ghost predicate ThreadsOk(ts: seq<Thread>) {
    forall j :: 0 <= j < |ts| ==> ThreadOk(ts[j])
  }

  /** While somebody of one side sleeps, what it waits for is at most what is already on its way to that side:
      signals about to be sent and threads already woken. */
  predicate NoLostWakeup(s: State) {
    && (Num(s.cons, Asleep) > 0 ==> s.index1 <= Num(s.prods, Signal) + Num(s.cons, Woken))
    && (Num(s.prods, Asleep) > 0 ==> |s.buffer| - s.index1 <= Num(s.cons, Signal) + Num(s.prods, Woken))
  }

  /** The values put in are those taken out and those in the buffer. */
  ghost predicate Conserved(s: State)
    requires s.index1 <= |s.buffer|
  {
    s.produced == s.consumed + multiset(s.buffer[..s.index1])
  }

  ghost predicate Inv(s: State) {
    && s.index1 <= |s.buffer|
    && ThreadsOk(s.prods) && ThreadsOk(s.cons)
    && Done(s.prods) == Done(s.cons) + s.index1
    && Conserved(s)
    && NoLostWakeup(s)
  }

  ghost predicate Init(s: State) {
    && |s.buffer| > 0 && s.index1 == 0 && s.produced == s.consumed == multiset{}
    && (forall j :: 0 <= j < |s.prods| ==> s.prods[j].pc.Ready? && s.prods[j].done == 0)
    && (forall j :: 0 <= j < |s.cons| ==> s.cons[j].pc.Ready? && s.cons[j].done == 0)
  }

  lemma {:induction false} QueuedConserves(s: State, j: nat)
    requires s.index1 < |s.buffer| && Conserved(s) && Enabled(s, Produce(j))
    ensures Conserved(Step(s, Produce(j)))
  {
    var v := s.prods[j].done + 1;
    assert s.buffer[s.index1 := v][..s.index1 + 1] == s.buffer[..s.index1] + [v];
  }

  lemma {:induction false} DequeuedConserves(s: State, j: nat)
    requires 0 < s.index1 <= |s.buffer| && Conserved(s) && Enabled(s, Consume(j))
    ensures Conserved(Step(s, Consume(j)))
  {
    var n := s.index1 - 1;
    assert s.buffer[..s.index1] == s.buffer[..n] + [s.buffer[n]];
  }

  lemma {:induction false} StillOk(ts: seq<Thread>, j: nat, t: Thread)
    requires ThreadsOk(ts) && j < |ts| && ThreadOk(t)
    ensures ThreadsOk(ts[j := t])
  {
  }

  /** The counts the invariant speaks of, after one thread has changed. */
  lemma {:induction false} Counts(ts: seq<Thread>, j: nat, t: Thread)
    requires j < |ts|
    ensures var us := ts[j := t];
      && Num(us, Asleep) == Num(ts, Asleep) - (if ts[j].pc.Asleep? then 1 else 0) + (if t.pc.Asleep? then 1 else 0)
      && Num(us, Woken) == Num(ts, Woken) - (if ts[j].pc.Woken? then 1 else 0) + (if t.pc.Woken? then 1 else 0)
      && Num(us, Signal) == Num(ts, Signal) - (if ts[j].pc.Signal? then 1 else 0) + (if t.pc.Signal? then 1 else 0)
      && Done(us) == Done(ts) - ts[j].done + t.done
  {
    Replace(ts, j, t);
  }

  lemma {:induction false} ProduceKeepsInv(s: State, j: nat)
    requires Inv(s) && Enabled(s, Produce(j))
    ensures Inv(Step(s, Produce(j)))
  {
    hide Num, Done, Loops;
    var r := Step(s, Produce(j));
    assert ThreadOk(s.prods[j]);
    StillOk(s.prods, j, r.prods[j]);
    Counts(s.prods, j, r.prods[j]);
    if s.index1 < |s.buffer| {
      QueuedConserves(s, j);
      hide Conserved;
    }
    hide ThreadsOk, ThreadOk;
  }

  lemma {:induction false} ConsumeKeepsInv(s: State, j: nat)
    requires Inv(s) && Enabled(s, Consume(j))
    ensures Inv(Step(s, Consume(j)))
  {
    hide Num, Done, Loops;
    var r := Step(s, Consume(j));
    assert ThreadOk(s.cons[j]);
    StillOk(s.cons, j, r.cons[j]);
    Counts(s.cons, j, r.cons[j]);
    if s.index1 > 0 {
      DequeuedConserves(s, j);
      hide Conserved;
    }
    hide ThreadsOk, ThreadOk;
  }

  lemma {:induction false} SignalEmptyKeepsInv(s: State, j: nat, k: nat)
    requires Inv(s) && Enabled(s, SignalEmpty(j, k))
    ensures Inv(Step(s, SignalEmpty(j, k)))
  {
    hide Num, Done, Loops;
    var r := Step(s, SignalEmpty(j, k));
    Replace(s.prods, j, r.prods[j]);
    assert ThreadOk(s.prods[j]);
    if k < |s.cons| {
      Replace(s.cons, k, r.cons[k]);
      assert ThreadOk(s.cons[k]);
    }
  }

  lemma {:induction false} SignalFullKeepsInv(s: State, j: nat, k: nat)
    requires Inv(s) && Enabled(s, SignalFull(j, k))
    ensures Inv(Step(s, SignalFull(j, k)))
  {
    hide Num, Done, Loops;
    var r := Step(s, SignalFull(j, k));
    Replace(s.cons, j, r.cons[j]);
    assert ThreadOk(s.cons[j]);
    if k < |s.prods| {
      Replace(s.prods, k, r.prods[k]);
      assert ThreadOk(s.prods[k]);
    }
  }

  lemma {:induction false} SpuriousKeepsInv(s: State, a: Action)
    requires Inv(s) && Enabled(s, a) && (a.SpuriousProducer? || a.SpuriousConsumer?)
    ensures Inv(Step(s, a))
  {
    hide Num, Done, Loops;
    var r := Step(s, a);
    if a.SpuriousProducer? {
      Replace(s.prods, a.j, r.prods[a.j]);
      assert ThreadOk(s.prods[a.j]);
    } else {
      Replace(s.cons, a.j, r.cons[a.j]);
      assert ThreadOk(s.cons[a.j]);
    }
  }

  lemma {:induction false} StepQueues(s: State, a: Action, v: int)
    requires s.index1 <= |s.buffer| && s.produced[v] == Queued(s.prods, v)
    ensures Step(s, a).produced[v] == Queued(Step(s, a).prods, v)
  {
    hide Queued, Num;
    if Enabled(s, a) {
      var r := Step(s, a);
      match a
      case Produce(j) => QueuedReplace(s.prods, j, r.prods[j], v);
      case Consume(j) =>
      case SignalEmpty(j, k) => QueuedReplace(s.prods, j, r.prods[j], v);
      case SignalFull(j, k) =>
        if k < |s.prods| { QueuedReplace(s.prods, k, r.prods[k], v); }
      case SpuriousProducer(j) => QueuedReplace(s.prods, j, r.prods[j], v);
      case SpuriousConsumer(j) =>
    }
  }

  /** The buffer is a stack: a value queued and taken at once is the one taken, and the rest is as before. */
  lemma {:induction false} LastInFirstOut(s: State, j: nat, k: nat)
    requires s.index1 < |s.buffer| && Enabled(s, Produce(j)) && Enabled(s, Consume(k))
    ensures var r := Step(Step(s, Produce(j)), Consume(k));
      && r.index1 == s.index1 && r.buffer[..r.index1] == s.buffer[..s.index1]
      && r.consumed == s.consumed + multiset{s.prods[j].done + 1}
  {
    hide Num;
  }
}
