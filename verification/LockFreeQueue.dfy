/**
  The lock-free ring queue of concurrency/multiproducerconsumer_lockfree.c, as atomic steps of any
  number of producers and consumers over sequentially consistent memory.

  The two roles run the same code with the roles of head and tail exchanged: publish a position, take
  a ticket, publish the ticket, wait for the watermark of the other role (rescanning the positions
  published there), touch the slot, publish "idle". A role is therefore one Side, and a step of a
  thread is written once. For the producer side `next` is head_ and `mark` is last_head_, for the
  consumer side they are tail_ and last_tail_.
*/
module LockFreeQueue {
  import opened Common

  /** A field of ThrPos. Idle is ULONG_MAX, which is above every position. */
  datatype Pos = Idle | At(pos: nat)

  /** The next atomic action of a thread; the comments give the action. */
  datatype Pc =
    | Out                        // call push or pop
    | Load                       // read the ticket counter
    | Publish(loaded: nat)       // store that value in the own position
    | Take                       // fetch-and-add on the ticket counter
    | Record                     // store the ticket in the own position
    | Test                       // the loop condition
    | ScanStart                  // min := the other side's ticket counter
    | Scan(min: nat, k: nat)     // look at position k of the other side, or store the watermark
    | Access                     // write or read the slot
    | Clear                      // store ULONG_MAX in the own position

  /** item is the argument of push, or the value pop read. */
  datatype Thread<T> = Thread(pc: Pc, pub: Pos, ticket: nat, item: T)

  datatype Side<T> = Side(next: nat, mark: nat, threads: seq<Thread<T>>)

  /** pushed and popped record, per ticket, what was stored in and read from its slot. */
  datatype Queue<T> = Queue(prod: Side<T>, cons: Side<T>, slots: seq<T>, pushed: map<nat, T>, popped: map<nat, T>)

  /** One scheduling decision: which thread moves; arg is the pointer given to a push that starts now. */
  datatype Action<T> = Push(i: nat, arg: T) | Pop(i: nat, arg: T)

  function Lower(p: Pos, m: nat): (r: nat)
    ensures r <= m && (p.At? ==> r <= p.pos) && (r == m || p == At(r))
  {
    if p.At? && p.pos < m then p.pos else m
  }

  function Put<T>(s: Side<T>, i: nat, th: Thread<T>): Side<T>
    requires i < |s.threads|
  {
    s.(threads := s.threads[i := th])
  }

  /** Every action but the slot access: the thread's side, and the watermark it may have rewritten. */
  function Move<T>(me: Side<T>, other: Side<T>, i: nat, slack: nat, arg: T): (Side<T>, nat)
    requires i < |me.threads|
  {
    var th := me.threads[i];
    match th.pc
    case Out => (Put(me, i, th.(pc := Load, item := arg)), other.mark)
    case Load => (Put(me, i, th.(pc := Publish(me.next))), other.mark)
    case Publish(h) => (Put(me, i, th.(pc := Take, pub := At(h))), other.mark)
    case Take => (Put(me.(next := me.next + 1), i, th.(pc := Record, ticket := me.next)), other.mark)
    case Record => (Put(me, i, th.(pc := Test, pub := At(th.ticket))), other.mark)
    case Test =>
      if th.pub.At? && th.pub.pos < other.mark + slack
      then (Put(me, i, th.(pc := Access)), other.mark)
      else (Put(me, i, th.(pc := ScanStart)), other.mark)
    case ScanStart => (Put(me, i, th.(pc := Scan(other.next, 0))), other.mark)
    case Scan(m, k) =>
      if k < |other.threads|
      then (Put(me, i, th.(pc := Scan(Lower(other.threads[k].pub, m), k + 1))), other.mark)
      else (Put(me, i, th.(pc := Test)), m)
    case Access => (Put(me, i, th.(pc := Clear)), other.mark)
    case Clear => (Put(me, i, th.(pc := Out, pub := Idle)), other.mark)
  }

  /** A scheduling decision; one that names no thread does nothing. */
  function Step<T>(q: Queue<T>, a: Action<T>): Queue<T>
    requires |q.slots| > 0
  {
    match a
    case Push(i, arg) =>
      if i >= |q.prod.threads| then q else
        var th := q.prod.threads[i];
        var (prod, mark) := Move(q.prod, q.cons, i, |q.slots|, arg);
        if th.pc.Access? && th.pub.At? then
          q.(prod := prod,
             slots := q.slots[th.pub.pos % |q.slots| := th.item],
             pushed := q.pushed[th.ticket := th.item])
        else q.(prod := prod, cons := q.cons.(mark := mark))
    case Pop(i, arg) =>
      if i >= |q.cons.threads| then q else
        var th := q.cons.threads[i];
        var (cons, mark) := Move(q.cons, q.prod, i, 0, arg);
        if th.pc.Access? && th.pub.At? then
          var got := q.slots[th.pub.pos % |q.slots|];
          q.(cons := Put(cons, i, cons.threads[i].(item := got)),
             popped := q.popped[th.ticket := got])
        else q.(cons := cons, prod := q.prod.(mark := mark))
  }

  function Run<T>(q: Queue<T>, sched: seq<Action<T>>): (r: Queue<T>)
    requires |q.slots| > 0
    ensures |r.slots| == |q.slots|
    decreases |sched|
  {
    if sched == [] then q else
      Step(Run(q, sched[..|sched| - 1]), sched[|sched| - 1])
  }

  ghost predicate InitSide<T>(s: Side<T>) {
    s.next == 0 && s.mark == 0 && forall i :: 0 <= i < |s.threads| ==> s.threads[i].pc.Out?
  }

  /** Counters and watermarks at zero, nobody inside push or pop; the positions may hold anything. */
  ghost predicate Init<T>(q: Queue<T>) {
    && |q.slots| > 0
    && q.pushed == map[] && q.popped == map[]
    && InitSide(q.prod) && InitSide(q.cons)
  }

  // ---------------------------------------------------------------- the invariant

  /** The thread owns a ticket whose slot it has not touched yet. */
  predicate Holds<T>(th: Thread<T>) {
    th.pc.Record? || th.pc.Test? || th.pc.ScanStart? || th.pc.Scan? || th.pc.Access?
  }

  predicate HeldBy<T>(s: Side<T>, t: nat, i: nat) {
    i < |s.threads| && Holds(s.threads[i]) && s.threads[i].ticket == t
  }

  /** What one thread's own fields satisfy, given its side. */
  predicate ThreadInv<T>(s: Side<T>, th: Thread<T>, done: set<nat>) {
    && (th.pc.Publish? ==> th.pc.loaded <= s.next)
    && (th.pc.Take? ==> th.pub.At? && th.pub.pos <= s.next)
    && (Holds(th) ==>
          && s.mark <= th.ticket < s.next
          && th.ticket !in done
          && th.pub.At? && th.pub.pos <= th.ticket
          && (!th.pc.Record? ==> th.pub.pos == th.ticket))
  }

  ghost predicate SideInv<T>(s: Side<T>, done: set<nat>) {
    && s.mark <= s.next
    && (forall i :: 0 <= i < |s.threads| ==> ThreadInv(s, s.threads[i], done))
    && (forall i, j :: 0 <= i < j < |s.threads| && Holds(s.threads[i]) && Holds(s.threads[j])
          ==> s.threads[i].ticket != s.threads[j].ticket)
    && (forall t :: t in done ==> t < s.next)
    && (forall t: nat :: t < s.next && t !in done ==> exists i: nat :: HeldBy(s, t, i))
  }

  /** A running minimum is below every ticket already passed by the scan, and below all later ones. */
  predicate ScanInv<T>(th: Thread<T>, other: Side<T>) {
    th.pc.Scan? ==>
      && th.pc.min <= other.next
      && forall j :: 0 <= j < th.pc.k && j < |other.threads| && Holds(other.threads[j])
           ==> th.pc.min <= other.threads[j].ticket
  }

  ghost predicate Scans<T>(s: Side<T>, other: Side<T>) {
    forall i :: 0 <= i < |s.threads| ==> ScanInv(s.threads[i], other)
  }

  /** Everything needed to touch the slot of ticket t has happened. */
  ghost predicate ReadyToPush<T>(q: Queue<T>, t: nat) {
    forall u: nat :: u + |q.slots| <= t ==> u in q.popped
  }

  ghost predicate DataInv<T>(q: Queue<T>) {
    && |q.slots| > 0
    && q.popped.Keys <= q.pushed.Keys
    && (forall t :: t in q.popped ==> q.popped[t] == q.pushed[t])
    && (forall t :: t in q.pushed && t !in q.popped ==> q.slots[t % |q.slots|] == q.pushed[t])
    && (forall t :: t in q.pushed ==> ReadyToPush(q, t))
  }

  ghost predicate AccessInv<T>(q: Queue<T>) {
    && (forall i :: 0 <= i < |q.prod.threads| && q.prod.threads[i].pc.Access? ==>
          ReadyToPush(q, q.prod.threads[i].ticket))
    && (forall i :: 0 <= i < |q.cons.threads| && q.cons.threads[i].pc.Access? ==>
          q.cons.threads[i].ticket in q.pushed)
  }

  /** A thread about to return: its item is what is on record for its ticket. */
  ghost predicate ReturnInv<T>(s: Side<T>, record: map<nat, T>) {
    forall i :: 0 <= i < |s.threads| && s.threads[i].pc.Clear? ==>
      s.threads[i].ticket in record && s.threads[i].item == record[s.threads[i].ticket]
  }

  ghost predicate Inv<T>(q: Queue<T>) {
    && SideInv(q.prod, q.pushed.Keys) && SideInv(q.cons, q.popped.Keys)
    && Scans(q.prod, q.cons) && Scans(q.cons, q.prod)
    && DataInv(q) && AccessInv(q)
    && ReturnInv(q.prod, q.pushed) && ReturnInv(q.cons, q.popped)
  }

  /** Below the watermark every ticket is finished. */
  lemma {:induction false} BelowMark<T>(s: Side<T>, done: set<nat>, t: nat)
    requires SideInv(s, done) && t < s.mark
    ensures t in done
  {
    forall i: nat | i < |s.threads| ensures !HeldBy(s, t, i) {
      assert ThreadInv(s, s.threads[i], done);
    }
  }

  /** Replacing a thread by one that holds the same ticket, or none again, keeps the invariant. */
  lemma {:induction false} PutKeepsSide<T>(s: Side<T>, i: nat, th: Thread<T>, done: set<nat>)
    requires i < |s.threads| && SideInv(s, done)
    requires ThreadInv(s, th, done)
    requires Holds(th) == Holds(s.threads[i]) && th.ticket == s.threads[i].ticket
    ensures SideInv(Put(s, i, th), done)
  {
    var s' := Put(s, i, th);
    forall j | 0 <= j < |s'.threads| ensures ThreadInv(s', s'.threads[j], done) {
      assert ThreadInv(s, s.threads[j], done);
    }
    forall t: nat | t < s'.next && t !in done ensures exists j: nat :: HeldBy(s', t, j) {
      var j: nat :| HeldBy(s, t, j);
      assert HeldBy(s', t, j);
    }
  }

  /** Taking a ticket keeps the invariant: it is above all tickets taken before. */
  lemma {:induction false} TakeKeepsSide<T>(s: Side<T>, i: nat, th: Thread<T>, done: set<nat>)
    requires i < |s.threads| && SideInv(s, done) && s.threads[i].pc.Take?
    requires th == s.threads[i].(pc := Record, ticket := s.next)
    ensures SideInv(Put(s.(next := s.next + 1), i, th), done)
  {
    var s' := Put(s.(next := s.next + 1), i, th);
    assert ThreadInv(s, s.threads[i], done);
    forall j | 0 <= j < |s'.threads| ensures ThreadInv(s', s'.threads[j], done) {
      assert ThreadInv(s, s.threads[j], done);
    }
    forall j, k | 0 <= j < k < |s'.threads| && Holds(s'.threads[j]) && Holds(s'.threads[k])
      ensures s'.threads[j].ticket != s'.threads[k].ticket
    {
      assert ThreadInv(s, s.threads[j], done) && ThreadInv(s, s.threads[k], done);
    }
    forall t: nat | t < s'.next && t !in done ensures exists j: nat :: HeldBy(s', t, j) {
      if t == s.next {
        assert HeldBy(s', t, i);
      } else {
        var j: nat :| HeldBy(s, t, j);
        assert HeldBy(s', t, j);
      }
    }
  }

  /** An action other than the slot access keeps the invariant of the mover's side. */
  lemma {:induction false} MoveKeepsSide<T>(me: Side<T>, other: Side<T>, i: nat, slack: nat, arg: T, done: set<nat>)
    requires i < |me.threads| && !me.threads[i].pc.Access?
    requires SideInv(me, done)
    ensures SideInv(Move(me, other, i, slack, arg).0, done)
  {
    var th' := Move(me, other, i, slack, arg).0.threads[i];
    assert ThreadInv(me, me.threads[i], done);
    if me.threads[i].pc.Take? {
      TakeKeepsSide(me, i, th', done);
    } else {
      PutKeepsSide(me, i, th', done);
    }
  }

  /** Touching the slot finishes the ticket. */
  lemma {:induction false} AccessKeepsSide<T>(me: Side<T>, i: nat, th: Thread<T>, done: set<nat>)
    requires i < |me.threads| && me.threads[i].pc.Access? && th.pc.Clear?
    requires SideInv(me, done)
    ensures SideInv(Put(me, i, th), done + {me.threads[i].ticket})
  {
    var t0 := me.threads[i].ticket;
    var me' := Put(me, i, th);
    var done' := done + {t0};
    assert ThreadInv(me, me.threads[i], done);
    forall j | 0 <= j < |me'.threads| ensures ThreadInv(me', me'.threads[j], done') {
      assert ThreadInv(me, me.threads[j], done);
    }
    forall t: nat | t < me'.next && t !in done' ensures exists j: nat :: HeldBy(me', t, j) {
      var j: nat :| HeldBy(me, t, j);
      assert HeldBy(me', t, j);
    }
  }

  /** A watermark computed by a completed scan, however stale, is a valid watermark. */
  lemma {:induction false} NewMarkKeepsSide<T>(s: Side<T>, done: set<nat>, th: Thread<T>)
    requires SideInv(s, done) && th.pc.Scan? && th.pc.k >= |s.threads| && ScanInv(th, s)
    ensures SideInv(s.(mark := th.pc.min), done)
  {
    var s' := s.(mark := th.pc.min);
    forall j | 0 <= j < |s'.threads| ensures ThreadInv(s', s'.threads[j], done) {
      assert ThreadInv(s, s.threads[j], done);
    }
    forall t: nat | t < s'.next && t !in done ensures exists j: nat :: HeldBy(s', t, j) {
      var j: nat :| HeldBy(s, t, j);
      assert HeldBy(s', t, j);
    }
  }

  /** The mover's own scan stays sound: this is where the min over published positions is used. */
  lemma {:induction false} MoveKeepsOwnScans<T>(me: Side<T>, other: Side<T>, i: nat, slack: nat, arg: T, done: set<nat>)
    requires i < |me.threads| && SideInv(other, done) && Scans(me, other)
    ensures Scans(Move(me, other, i, slack, arg).0, other)
  {
    var me' := Move(me, other, i, slack, arg).0;
    forall j | 0 <= j < |me'.threads| ensures ScanInv(me'.threads[j], other) {
      assert ScanInv(me.threads[j], other);
      if j == i && me'.threads[i].pc.Scan? && me'.threads[i].pc.k > 0 {
        assert ThreadInv(other, other.threads[me'.threads[i].pc.k - 1], done);
      }
    }
  }

  /** Scans of the other side stay sound, because a new ticket is above every running minimum. */
  lemma {:induction false} MoveKeepsOtherScans<T>(me: Side<T>, other: Side<T>, i: nat, slack: nat, arg: T)
    requires i < |me.threads| && Scans(other, me)
    ensures Scans(other, Move(me, other, i, slack, arg).0)
  {
    var me' := Move(me, other, i, slack, arg).0;
    forall j | 0 <= j < |other.threads| ensures ScanInv(other.threads[j], me') {
      assert ScanInv(other.threads[j], me);
    }
  }

  lemma {:induction false} ScansIgnoreMark<T>(s: Side<T>, other: Side<T>, other': Side<T>)
    requires Scans(s, other) && other' == other.(mark := other'.mark)
    ensures Scans(s, other')
  {
    assert forall i :: 0 <= i < |s.threads| ==> ScanInv(s.threads[i], other);
  }

  lemma {:induction false} PushKeepsSides<T>(q: Queue<T>, i: nat, arg: T)
    requires Inv(q) && i < |q.prod.threads|
    ensures var r := Step(q, Push(i, arg));
      && SideInv(r.prod, r.pushed.Keys) && SideInv(r.cons, r.popped.Keys)
      && Scans(r.prod, r.cons) && Scans(r.cons, r.prod)
  {
    var r := Step(q, Push(i, arg));
    var th := q.prod.threads[i];
    assert ThreadInv(q.prod, th, q.pushed.Keys) && ScanInv(th, q.cons);
    MoveKeepsOwnScans(q.prod, q.cons, i, |q.slots|, arg, q.popped.Keys);
    MoveKeepsOtherScans(q.prod, q.cons, i, |q.slots|, arg);
    if th.pc.Access? {
      AccessKeepsSide(q.prod, i, th.(pc := Clear), q.pushed.Keys);
      assert r.pushed.Keys == q.pushed.Keys + {th.ticket};
    } else {
      MoveKeepsSide(q.prod, q.cons, i, |q.slots|, arg, q.pushed.Keys);
      if th.pc.Scan? && th.pc.k >= |q.cons.threads| {
        NewMarkKeepsSide(q.cons, q.popped.Keys, th);
      }
      ScansIgnoreMark(r.prod, q.cons, r.cons);
    }
  }

  lemma {:induction false} PopKeepsSides<T>(q: Queue<T>, i: nat, arg: T)
    requires Inv(q) && i < |q.cons.threads|
    ensures var r := Step(q, Pop(i, arg));
      && SideInv(r.prod, r.pushed.Keys) && SideInv(r.cons, r.popped.Keys)
      && Scans(r.prod, r.cons) && Scans(r.cons, r.prod)
  {
    var r := Step(q, Pop(i, arg));
    var th := q.cons.threads[i];
    assert ThreadInv(q.cons, th, q.popped.Keys) && ScanInv(th, q.prod);
    MoveKeepsOwnScans(q.cons, q.prod, i, 0, arg, q.pushed.Keys);
    MoveKeepsOtherScans(q.cons, q.prod, i, 0, arg);
    if th.pc.Access? {
      var got := q.slots[th.pub.pos % |q.slots|];
      AccessKeepsSide(q.cons, i, th.(pc := Clear, item := got), q.popped.Keys);
      assert r.cons == Put(q.cons, i, th.(pc := Clear, item := got));
      assert r.popped.Keys == q.popped.Keys + {th.ticket};
      assert forall j :: 0 <= j < |r.cons.threads| ==> ScanInv(r.cons.threads[j], q.prod);
    } else {
      MoveKeepsSide(q.cons, q.prod, i, 0, arg, q.popped.Keys);
      if th.pc.Scan? && th.pc.k >= |q.prod.threads| {
        NewMarkKeepsSide(q.prod, q.pushed.Keys, th);
      }
      ScansIgnoreMark(r.cons, q.prod, r.prod);
    }
  }

  /** A slot about to be written was read for every earlier ticket, and no later ticket wrote it. */
  lemma {:induction false} SlotFree<T>(q: Queue<T>, t: nat, u: nat)
    requires DataInv(q) && ReadyToPush(q, t) && t !in q.pushed
    ensures u in q.pushed && u % |q.slots| == t % |q.slots| ==> u in q.popped
  {
    if u in q.pushed && u % |q.slots| == t % |q.slots| {
      assert ReadyToPush(q, u);
      if u < t {
        SameSlotApart(u, t, |q.slots|);
      } else {
        SameSlotApart(t, u, |q.slots|);
      }
    }
  }

  lemma {:induction false} PushKeepsData<T>(q: Queue<T>, i: nat, arg: T)
    requires Inv(q) && i < |q.prod.threads|
    ensures DataInv(Step(q, Push(i, arg)))
  {
    var r := Step(q, Push(i, arg));
    var th := q.prod.threads[i];
    assert ThreadInv(q.prod, th, q.pushed.Keys);
    if th.pc.Access? {
      var t := th.ticket;
      forall u | u in r.pushed && u !in r.popped ensures r.slots[u % |r.slots|] == r.pushed[u] {
        if u != t && u % |q.slots| == t % |q.slots| {
          SlotFree(q, t, u);
        }
      }
      forall u | u in r.pushed ensures ReadyToPush(r, u) {
        assert ReadyToPush(q, u);
      }
    } else {
      forall u | u in r.pushed ensures ReadyToPush(r, u) {
        assert ReadyToPush(q, u);
      }
    }
  }

  lemma {:induction false} PopKeepsData<T>(q: Queue<T>, i: nat, arg: T)
    requires Inv(q) && i < |q.cons.threads|
    ensures DataInv(Step(q, Pop(i, arg)))
  {
    var r := Step(q, Pop(i, arg));
    var th := q.cons.threads[i];
    assert ThreadInv(q.cons, th, q.popped.Keys);
    assert q.popped.Keys <= r.popped.Keys;
    forall u | u in r.pushed ensures ReadyToPush(r, u) {
      assert ReadyToPush(q, u);
    }
  }

  /** A producer that passes its test has room: every ticket a ring earlier is read. */
  lemma {:induction false} PassedTestIsReady<T>(q: Queue<T>, t: nat)
    requires SideInv(q.cons, q.popped.Keys) && t < q.cons.mark + |q.slots|
    ensures ReadyToPush(q, t)
  {
    forall u: nat | u + |q.slots| <= t ensures u in q.popped {
      BelowMark(q.cons, q.popped.Keys, u);
    }
  }

  /** What a producer's action leaves alone, and how it gets to its slot. */
  lemma {:induction false} PushChanges<T>(q: Queue<T>, i: nat, arg: T)
    requires |q.slots| > 0 && i < |q.prod.threads|
    ensures var r := Step(q, Push(i, arg)); var th := q.prod.threads[i];
      && |r.slots| == |q.slots| && r.popped == q.popped && r.cons.threads == q.cons.threads
      && q.pushed.Keys <= r.pushed.Keys
      && i < |r.prod.threads| && r.prod.threads == q.prod.threads[i := r.prod.threads[i]]
      && (r.prod.threads[i].pc.Access? && !th.pc.Access? ==>
            && r.prod.threads[i].ticket == th.ticket
            && th.pc.Test? && th.pub.At? && th.pub.pos < q.cons.mark + |q.slots|)
      && (th.pc.Access? && th.pub.At? ==> !r.prod.threads[i].pc.Access?)
  {
  }

  lemma {:induction false} PushKeepsAccess<T>(q: Queue<T>, i: nat, arg: T)
    requires Inv(q) && i < |q.prod.threads|
    ensures AccessInv(Step(q, Push(i, arg)))
  {
    var r := Step(q, Push(i, arg));
    var th := q.prod.threads[i];
    assert ThreadInv(q.prod, th, q.pushed.Keys);
    PushChanges(q, i, arg);
    hide Step;
    if th.pc.Test? && r.prod.threads[i].pc.Access? {
      PassedTestIsReady(q, th.ticket);
    }
    hide SideInv, Scans, DataInv, ReturnInv;
    forall j | 0 <= j < |r.prod.threads| && r.prod.threads[j].pc.Access?
      ensures ReadyToPush(r, r.prod.threads[j].ticket)
    {
      assert ReadyToPush(q, r.prod.threads[j].ticket);
    }
  }

  lemma {:induction false} PopKeepsAccess<T>(q: Queue<T>, i: nat, arg: T)
    requires Inv(q) && i < |q.cons.threads|
    ensures AccessInv(Step(q, Pop(i, arg)))
  {
    var r := Step(q, Pop(i, arg));
    var th := q.cons.threads[i];
    assert ThreadInv(q.cons, th, q.popped.Keys);
    assert q.popped.Keys <= r.popped.Keys;
    forall j | 0 <= j < |r.prod.threads| && r.prod.threads[j].pc.Access?
      ensures ReadyToPush(r, r.prod.threads[j].ticket)
    {
      assert ReadyToPush(q, q.prod.threads[j].ticket);
    }
    if th.pc.Test? && r.cons.threads[i].pc.Access? {
      BelowMark(q.prod, q.pushed.Keys, th.ticket);
    }
  }

  lemma {:induction false} PushKeepsReturn<T>(q: Queue<T>, i: nat, arg: T)
    requires Inv(q) && i < |q.prod.threads|
    ensures var r := Step(q, Push(i, arg)); ReturnInv(r.prod, r.pushed) && ReturnInv(r.cons, r.popped)
  {
    assert ThreadInv(q.prod, q.prod.threads[i], q.pushed.Keys);
  }

  lemma {:induction false} PopKeepsReturn<T>(q: Queue<T>, i: nat, arg: T)
    requires Inv(q) && i < |q.cons.threads|
    ensures var r := Step(q, Pop(i, arg)); ReturnInv(r.prod, r.pushed) && ReturnInv(r.cons, r.popped)
  {
    assert ThreadInv(q.cons, q.cons.threads[i], q.popped.Keys);
  }
}
