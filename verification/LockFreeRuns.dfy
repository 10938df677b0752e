/**
  What holds in every run of the lock-free ring queue: no pointer is lost, overwritten unread, read before it is
  written, or returned by the wrong pop.
*/
module LockFreeRuns {
  import opened LockFreeQueue

  lemma {:induction false} StepKeepsInv<T>(q: Queue<T>, a: Action<T>)
    requires Inv(q)
    ensures Inv(Step(q, a))
  {
    match a
    case Push(i, arg) =>
      if i < |q.prod.threads| {
        PushKeepsSides(q, i, arg);
        PushKeepsData(q, i, arg);
        PushKeepsAccess(q, i, arg);
        PushKeepsReturn(q, i, arg);
      }
    case Pop(i, arg) =>
      if i < |q.cons.threads| {
        PopKeepsSides(q, i, arg);
        PopKeepsData(q, i, arg);
        PopKeepsAccess(q, i, arg);
        PopKeepsReturn(q, i, arg);
      }
  }

  lemma {:induction false} RunKeepsInv<T>(q: Queue<T>, sched: seq<Action<T>>)
    requires Init(q)
    ensures Inv(Run(q, sched))
    decreases |sched|
  {
    if sched == [] {
      assert forall i :: 0 <= i < |q.prod.threads| ==> ThreadInv(q.prod, q.prod.threads[i], {});
      assert forall i :: 0 <= i < |q.cons.threads| ==> ThreadInv(q.cons, q.cons.threads[i], {});
      assert q.pushed.Keys == {} && q.popped.Keys == {};
    } else {
      RunKeepsInv(q, sched[..|sched| - 1]);
      StepKeepsInv(Run(q, sched[..|sched| - 1]), sched[|sched| - 1]);
    }
  }

  // ---------------------------------------------------------------- what holds in every run

  /** The pop with ticket t reads exactly the pointer that the push with ticket t stored. */
  lemma {:induction false} PopReadsItsPush<T>(q: Queue<T>, sched: seq<Action<T>>, t: nat)
    requires Init(q) && t in Run(q, sched).popped
    ensures t in Run(q, sched).pushed && Run(q, sched).popped[t] == Run(q, sched).pushed[t]
  {
    RunKeepsInv(q, sched);
  }

  /** A producer about to write its slot destroys nothing that is still to be read. */
  lemma {:induction false} NoOverwriteBeforeRead<T>(q: Queue<T>, sched: seq<Action<T>>, i: nat, u: nat)
    requires Init(q)
    requires var r := Run(q, sched);
      && i < |r.prod.threads| && r.prod.threads[i].pc.Access?
      && u in r.pushed && u % |r.slots| == r.prod.threads[i].ticket % |r.slots|
    ensures u in Run(q, sched).popped
  {
    RunKeepsInv(q, sched);
    var r := Run(q, sched);
    assert ThreadInv(r.prod, r.prod.threads[i], r.pushed.Keys);
    SlotFree(r, r.prod.threads[i].ticket, u);
  }

  /** A consumer about to read finds in its slot what the push with its own ticket wrote. */
  lemma {:induction false} NoReadBeforeWrite<T>(q: Queue<T>, sched: seq<Action<T>>, i: nat)
    requires Init(q)
    requires i < |Run(q, sched).cons.threads| && Run(q, sched).cons.threads[i].pc.Access?
    ensures var r := Run(q, sched); var th := r.cons.threads[i];
      th.pub == At(th.ticket) && th.ticket in r.pushed && r.slots[th.ticket % |r.slots|] == r.pushed[th.ticket]
  {
    RunKeepsInv(q, sched);
    var r := Run(q, sched);
    assert ThreadInv(r.cons, r.cons.threads[i], r.popped.Keys);
  }

  /** The watermarks, stale or not, stay at or below every unfinished ticket. */
  lemma {:induction false} MarksBelowUnfinished<T>(q: Queue<T>, sched: seq<Action<T>>, t: nat)
    requires Init(q)
    ensures var r := Run(q, sched);
      && (t !in r.popped ==> r.cons.mark <= t)
      && (t !in r.pushed ==> r.prod.mark <= t)
  {
    RunKeepsInv(q, sched);
    var r := Run(q, sched);
    if r.cons.mark > t { BelowMark(r.cons, r.popped.Keys, t); }
    if r.prod.mark > t { BelowMark(r.prod, r.pushed.Keys, t); }
  }

  ghost predicate AllOut<T>(s: Side<T>) {
    forall i :: 0 <= i < |s.threads| ==> s.threads[i].pc.Out?
  }

  lemma {:induction false} NoneHeld<T>(s: Side<T>)
    requires AllOut(s)
    ensures forall t: nat, i: nat :: !HeldBy(s, t, i)
  {
    forall t: nat, i: nat | i < |s.threads| ensures !HeldBy(s, t, i) {
      assert s.threads[i].pc.Out?;
    }
  }

  /** Nothing is lost or duplicated: with nobody inside, exactly the tickets handed out are done, and at
      most a ring full of pushes is unread. */
  lemma {:induction false} QuiescentAccounting<T>(q: Queue<T>, sched: seq<Action<T>>)
    requires Init(q)
    requires AllOut(Run(q, sched).prod) && AllOut(Run(q, sched).cons)
    ensures var r := Run(q, sched);
      && (forall t: nat :: t in r.pushed <==> t < r.prod.next)
      && (forall t: nat :: t in r.popped <==> t < r.cons.next)
      && r.cons.next <= r.prod.next <= r.cons.next + |r.slots|
      && (forall t: nat :: t < r.cons.next ==> r.popped[t] == r.pushed[t])
  {
    RunKeepsInv(q, sched);
    var r := Run(q, sched);
    NoneHeld(r.prod);
    NoneHeld(r.cons);
    assert r.cons.next !in r.popped && r.prod.next !in r.pushed;
    if r.prod.next > 0 {
      assert ReadyToPush(r, r.prod.next - 1);
    }
  }
}
