/**
  Calls of push and pop in every run of the lock-free ring queue, identified by the schedule alone: what each push was
  given is what it stores and what the pop with its ticket returns, and a call uses a ticket handed out during the
  call, so calls that do not overlap are served in order.
*/
module LockFreeCalls {
  import opened Common
  import opened LockFreeQueue
  import opened LockFreeRuns

  function SideOf<T>(q: Queue<T>, push: bool): Side<T> {
    if push then q.prod else q.cons
  }

  /** The action is one of producer i, or of consumer i. */
  predicate Moves<T>(a: Action<T>, push: bool, i: nat) {
    a.i == i && a.Push? == push
  }

  predicate AtPc<T>(q: Queue<T>, push: bool, i: nat, out: bool) {
    i < |SideOf(q, push).threads| && SideOf(q, push).threads[i].pc.Out? == out
  }

  /** The action is the call itself: the thread is outside and moves. */
  predicate Calls<T>(q: Queue<T>, a: Action<T>, push: bool, i: nat) {
    Moves(a, push, i) && AtPc(q, push, i, true)
  }

  /** Where in the schedule the thread last called push or pop. */
  function LastCall<T>(q: Queue<T>, sched: seq<Action<T>>, push: bool, i: nat): (r: Option<nat>)
    requires |q.slots| > 0
    ensures r.Some? ==>
      r.value < |sched| && Calls(Run(q, sched[..r.value]), sched[r.value], push, i)
    decreases |sched|
  {
    if sched == [] then None
    else
      var before := sched[..|sched| - 1];
      if Calls(Run(q, before), sched[|sched| - 1], push, i) then Some(|sched| - 1)
      else
        var r := LastCall(q, before, push, i);
        assert r.Some? ==> before[..r.value] == sched[..r.value];
        r
  }

  // ---------------------------------------------------------------- what one action does to a call

  /** The thread has a ticket of its present call, used or not. */
  predicate HasTicket<T>(th: Thread<T>) {
    Holds(th) || th.pc.Clear?
  }

  /** The position stored by the call so far, or about to be stored. */
  function Position<T>(th: Thread<T>): Pos {
    if th.pc.Publish? then At(th.pc.loaded) else if th.pc.Take? || Holds(th) then th.pub else Idle
  }

  /** From th to th' with one action of its own, when the ticket counter is next. */
  ghost predicate Advances<T>(th: Thread<T>, th': Thread<T>, next: nat, push: bool, arg: T) {
    && (th.pc.Out? ==> !HasTicket(th') && !th'.pc.Out? && (push ==> th'.item == arg))
    && (!th.pc.Out? && push ==> th'.item == th.item)
    && (HasTicket(th') ==> th'.ticket == next || (HasTicket(th) && th'.ticket == th.ticket))
    && (Position(th') in {Idle, At(next), Position(th)} || (HasTicket(th') && Position(th') == At(th'.ticket)))
    && (th'.pc.Out? <==> th.pc.Clear?) && (th.pc.Access? ==> th'.pc.Clear?)
  }

  lemma {:induction false} MoveAdvances<T>(me: Side<T>, other: Side<T>, i: nat, slack: nat, arg: T)
    requires i < |me.threads|
    ensures var side := Move(me, other, i, slack, arg).0;
      && side.threads == me.threads[i := side.threads[i]] && me.next <= side.next
      && Advances(me.threads[i], side.threads[i], me.next, true, arg)
  {
  }

  lemma {:induction false} StepOfThread<T>(q: Queue<T>, a: Action<T>, push: bool, i: nat)
    requires |q.slots| > 0 && i < |SideOf(q, push).threads|
    ensures var side, side' := SideOf(q, push), SideOf(Step(q, a), push);
      && |side'.threads| == |side.threads| && side.next <= side'.next
      && (!Moves(a, push, i) ==> side'.threads[i] == side.threads[i])
      && (Moves(a, push, i) ==> Advances(side.threads[i], side'.threads[i], side.next, push, a.arg))
  {
    var me, other := SideOf(q, a.Push?), SideOf(q, !a.Push?);
    if a.i < |me.threads| {
      MoveAdvances(me, other, a.i, if a.Push? then |q.slots| else 0, a.arg);
      hide Move;
    }
  }

  lemma {:induction false} StepGrows<T>(q: Queue<T>, a: Action<T>, push: bool)
    requires |q.slots| > 0
    ensures SideOf(q, push).next <= SideOf(Step(q, a), push).next
    ensures |SideOf(Step(q, a), push).threads| == |SideOf(q, push).threads|
  {
  }

  lemma {:induction false} RunGrows<T>(q: Queue<T>, sched: seq<Action<T>>, push: bool, k: nat)
    requires |q.slots| > 0 && k <= |sched|
    ensures var early, late := SideOf(Run(q, sched[..k]), push), SideOf(Run(q, sched), push);
      early.next <= late.next && |early.threads| == |late.threads|
    decreases |sched|
  {
    if k == |sched| {
      assert sched[..k] == sched;
    } else {
      var before := sched[..|sched| - 1];
      var u := Run(q, before);
      assert before[..k] == sched[..k];
      RunGrows(q, before, push, k);
      StepGrows(u, sched[|sched| - 1], push);
      hide Step;
    }
  }

  // ---------------------------------------------------------------- what every call keeps

  /** A thread inside push or pop is in the call that the schedule says; a push carries its argument, and its ticket
      and every position it has published are not below the ticket counter at the call. */
  ghost predicate InCall<T>(q: Queue<T>, sched: seq<Action<T>>, push: bool, i: nat)
    requires |q.slots| > 0 && i < |SideOf(Run(q, sched), push).threads|
  {
    var th, call := SideOf(Run(q, sched), push).threads[i], LastCall(q, sched, push, i);
    !th.pc.Out? ==>
      && call.Some?
      && (push ==> th.item == sched[call.value].arg)
      && (HasTicket(th) ==> SideOf(Run(q, sched[..call.value]), push).next <= th.ticket)
      && (Position(th).At? ==> SideOf(Run(q, sched[..call.value]), push).next <= Position(th).pos)
  }

  lemma {:induction false} OneMore<T>(q: Queue<T>, sched: seq<Action<T>>, a: Action<T>)
    requires |q.slots| > 0
    ensures Run(q, sched + [a]) == Step(Run(q, sched), a)
  {
    assert (sched + [a])[..|sched|] == sched;
  }

  /** Only the call itself changes what the last call was. */
  lemma {:induction false} LastCallAfter<T>(q: Queue<T>, sched: seq<Action<T>>, a: Action<T>, push: bool, i: nat)
    requires |q.slots| > 0
    ensures LastCall(q, sched + [a], push, i)
         == if Calls(Run(q, sched), a, push, i) then Some(|sched|) else LastCall(q, sched, push, i)
  {
    assert (sched + [a])[..|sched|] == sched;
  }

  lemma {:induction false} CallGoesOn<T>(q: Queue<T>, sched: seq<Action<T>>, a: Action<T>, push: bool, i: nat)
    requires |q.slots| > 0 && i < |SideOf(Run(q, sched), push).threads| && InCall(q, sched, push, i)
    ensures i < |SideOf(Run(q, sched + [a]), push).threads| && InCall(q, sched + [a], push, i)
  {
    var u, call := Run(q, sched), LastCall(q, sched, push, i);
    OneMore(q, sched, a);
    LastCallAfter(q, sched, a, push, i);
    StepOfThread(u, a, push, i);
    hide Step, Run, LastCall;
    assert (sched + [a])[..|sched|] == sched;
    if call.Some? {
      assert (sched + [a])[..call.value] == sched[..call.value] && (sched + [a])[call.value] == sched[call.value];
      RunGrows(q, sched, push, call.value);
    }
  }

  lemma {:induction false} StaysInCall<T>(q: Queue<T>, sched: seq<Action<T>>, push: bool, i: nat)
    requires Init(q) && i < |SideOf(Run(q, sched), push).threads|
    ensures InCall(q, sched, push, i)
    decreases |sched|
  {
    if sched != [] {
      var before, a := sched[..|sched| - 1], sched[|sched| - 1];
      var u := Run(q, before);
      StepGrows(u, a, push);
      StaysInCall(q, before, push, i);
      CallGoesOn(q, before, a, push, i);
      assert sched == before + [a];
    }
  }

  // ---------------------------------------------------------------- what a push stores and a pop returns

  /** Action k of the schedule is the store, or the read, of the slot of ticket t by the call made with action c. */
  ghost predicate Serves<T>(q: Queue<T>, sched: seq<Action<T>>, push: bool, k: nat, c: nat, t: nat)
    requires |q.slots| > 0
  {
    && k < |sched| && sched[k].Push? == push
    && var u, i := Run(q, sched[..k]), sched[k].i;
      && i < |SideOf(u, push).threads|
      && SideOf(u, push).threads[i].pc.Access? && SideOf(u, push).threads[i].ticket == t
      && LastCall(q, sched[..k], push, i) == Some(c)
  }

  lemma {:induction false} ServesLater<T>(q: Queue<T>, sched: seq<Action<T>>, a: Action<T>, push: bool, k: nat, c: nat,
                                          t: nat)
    requires |q.slots| > 0 && Serves(q, sched, push, k, c, t)
    ensures Serves(q, sched + [a], push, k, c, t)
  {
    assert (sched + [a])[..k] == sched[..k];
  }

  /** A store adds its ticket and keeps the others. */
  lemma {:induction false} StepPushes<T>(q: Queue<T>, a: Action<T>)
    requires Inv(q)
    ensures var r := Step(q, a);
      if a.Push? && a.i < |q.prod.threads| && q.prod.threads[a.i].pc.Access? then
        var th := q.prod.threads[a.i];
        th.ticket !in q.pushed && r.pushed == q.pushed[th.ticket := th.item]
      else r.pushed == q.pushed
  {
    if a.Push? && a.i < |q.prod.threads| {
      assert ThreadInv(q.prod, q.prod.threads[a.i], q.pushed.Keys);
    }
  }

  /** Everything stored was stored by a push, and is what that push was called with. */
  lemma {:induction false} StoredByPush<T>(q: Queue<T>, sched: seq<Action<T>>, t: nat) returns (k: nat, c: nat)
    requires Init(q) && t in Run(q, sched).pushed
    ensures Serves(q, sched, true, k, c, t)
    ensures c < |sched| && Run(q, sched).pushed[t] == sched[c].arg
    decreases |sched|
  {
    if sched == [] {
      assert false;
    } else {
      var before, a := sched[..|sched| - 1], sched[|sched| - 1];
      var u := Run(q, before);
      assert sched == before + [a];
      RunKeepsInv(q, before);
      StepPushes(u, a);
      hide Init, Inv;
      if t in u.pushed {
        k, c := StoredByPush(q, before, t);
        hide Serves, Step;
        ServesLater(q, before, a, true, k, c, t);
      } else {
        StaysInCall(q, before, true, a.i);
        k, c := |before|, LastCall(q, before, true, a.i).value;
      }
    }
  }

  /** A push that is about to return has its argument stored under a ticket that was not in use when it was called. */
  lemma {:induction false} PushStoredItsArgument<T>(q: Queue<T>, sched: seq<Action<T>>, i: nat)
    requires Init(q) && i < |Run(q, sched).prod.threads| && Run(q, sched).prod.threads[i].pc.Clear?
    ensures var r, call := Run(q, sched), LastCall(q, sched, true, i);
      var th := r.prod.threads[i];
      && call.Some?
      && th.ticket in r.pushed && r.pushed[th.ticket] == th.item == sched[call.value].arg
      && th.ticket !in Run(q, sched[..call.value]).pushed
  {
    RunKeepsInv(q, sched);
    StaysInCall(q, sched, true, i);
    RunKeepsInv(q, sched[..LastCall(q, sched, true, i).value]);
    hide Run, LastCall;
  }

  /** A pop that is about to return holds the argument of the push that stored with its ticket, a ticket that had not
      been read when the pop was called. */
  lemma {:induction false} PopReturnsItsPush<T>(q: Queue<T>, sched: seq<Action<T>>, i: nat) returns (k: nat, c: nat)
    requires Init(q) && i < |Run(q, sched).cons.threads| && Run(q, sched).cons.threads[i].pc.Clear?
    ensures var r, call := Run(q, sched), LastCall(q, sched, false, i);
      var th := r.cons.threads[i];
      && call.Some?
      && th.ticket in r.popped && th.ticket !in Run(q, sched[..call.value]).popped
      && Serves(q, sched, true, k, c, th.ticket)
      && c < |sched| && th.item == sched[c].arg
  {
    var th := Run(q, sched).cons.threads[i];
    RunKeepsInv(q, sched);
    k, c := StoredByPush(q, sched, th.ticket);
    StaysInCall(q, sched, false, i);
    RunKeepsInv(q, sched[..LastCall(q, sched, false, i).value]);
    hide Run, LastCall, Serves;
  }

  /** A call returns only by its last store, so the two theorems above speak of every return. */
  lemma {:induction false} ReturnsFromClear<T>(q: Queue<T>, sched: seq<Action<T>>, a: Action<T>, push: bool, i: nat)
    requires |q.slots| > 0 && AtPc(Run(q, sched), push, i, false)
    requires AtPc(Run(q, sched + [a]), push, i, true)
    ensures SideOf(Run(q, sched), push).threads[i].pc.Clear? && Moves(a, push, i)
  {
    OneMore(q, sched, a);
    StepOfThread(Run(q, sched), a, push, i);
    hide Step, Run;
  }

  // ---------------------------------------------------------------- one ticket per call, in the order of the calls

  /** The slot access is behind the thread, or it is about to make it with action a. */
  predicate Accessed<T>(q: Queue<T>, push: bool, i: nat, now: bool) {
    var side := SideOf(q, push);
    i < |side.threads| && var pc := side.threads[i].pc; pc.Clear? || pc.Out? || (now && pc.Access?)
  }

  lemma {:induction false} StaysAccessed<T>(q: Queue<T>, sched: seq<Action<T>>, a: Action<T>, push: bool, i: nat,
                                            c: nat)
    requires |q.slots| > 0 && c < |sched| && LastCall(q, sched + [a], push, i) == Some(c)
    requires Accessed(Run(q, sched), push, i, Moves(a, push, i))
    ensures Accessed(Run(q, sched + [a]), push, i, false) && LastCall(q, sched, push, i) == Some(c)
  {
    OneMore(q, sched, a);
    LastCallAfter(q, sched, a, push, i);
    StepOfThread(Run(q, sched), a, push, i);
    hide Step, Run, LastCall;
  }

  lemma {:induction false} LastCallKept<T>(q: Queue<T>, sched: seq<Action<T>>, a: Action<T>, push: bool, i: nat, c: nat)
    requires |q.slots| > 0 && c < |sched| && LastCall(q, sched + [a], push, i) == Some(c)
    ensures LastCall(q, sched, push, i) == Some(c)
  {
    LastCallAfter(q, sched, a, push, i);
  }

  lemma {:induction false} AccessedWeaker<T>(q: Queue<T>, push: bool, i: nat, now: bool)
    requires Accessed(q, push, i, false)
    ensures Accessed(q, push, i, now)
  {
  }

  /** After its access a call makes no other. */
  lemma {:induction false} AfterAccess<T>(q: Queue<T>, early: seq<Action<T>>, a: Action<T>, rest: seq<Action<T>>,
                                          push: bool, i: nat, c: nat)
    requires |q.slots| > 0 && Accessed(Run(q, early), push, i, Moves(a, push, i))
    requires c < |early| && LastCall(q, early + [a] + rest, push, i) == Some(c)
    ensures Accessed(Run(q, early + [a] + rest), push, i, false)
    decreases |rest|
  {
    hide Run, LastCall, Accessed, Moves;
    if rest == [] {
      assert early + [a] + rest == early + [a];
      StaysAccessed(q, early, a, push, i, c);
    } else {
      var before, last := rest[..|rest| - 1], rest[|rest| - 1];
      assert early + [a] + rest == (early + [a] + before) + [last];
      LastCallKept(q, early + [a] + before, last, push, i, c);
      AfterAccess(q, early, a, before, push, i, c);
      AccessedWeaker(Run(q, early + [a] + before), push, i, Moves(last, push, i));
      StaysAccessed(q, early + [a] + before, last, push, i, c);
    }
  }

  lemma {:induction false} ServedFor<T>(q: Queue<T>, sched: seq<Action<T>>, push: bool, k: nat, c: nat, t: nat)
    requires |q.slots| > 0 && Serves(q, sched, push, k, c, t)
    ensures c < k < |sched| && sched[k].i == sched[c].i
    ensures LastCall(q, sched[..k], push, sched[k].i) == Some(c)
    ensures Accessed(Run(q, sched[..k]), push, sched[k].i, Moves(sched[k], push, sched[k].i))
    ensures !Accessed(Run(q, sched[..k]), push, sched[k].i, false)
  {
    assert sched[..k][c] == sched[c];
  }

  lemma {:induction false} CutAt<A>(s: seq<A>, k: nat, k': nat)
    requires k < k' <= |s|
    ensures s[..k'] == s[..k] + [s[k]] + s[k + 1..k']
  {
  }

  lemma {:induction false} NotServedTwice<T>(q: Queue<T>, sched: seq<Action<T>>, push: bool, c: nat, k: nat, t: nat,
                                             k': nat, t': nat)
    requires |q.slots| > 0 && Serves(q, sched, push, k, c, t) && Serves(q, sched, push, k', c, t')
    ensures k' <= k
  {
    ServedFor(q, sched, push, k, c, t);
    ServedFor(q, sched, push, k', c, t');
    hide Run, LastCall, Accessed, Moves, Serves;
    if k < k' {
      CutAt(sched, k, k');
      AfterAccess(q, sched[..k], sched[k], sched[k + 1..k'], push, sched[k].i, c);
      assert false;
    }
  }

  /** A call touches one slot, once. */
  lemma {:induction false} OneTicketPerCall<T>(q: Queue<T>, sched: seq<Action<T>>, push: bool, c: nat, k: nat, t: nat,
                                               k': nat, t': nat)
    requires |q.slots| > 0 && Serves(q, sched, push, k, c, t) && Serves(q, sched, push, k', c, t')
    ensures k == k' && t == t'
  {
    NotServedTwice(q, sched, push, c, k, t, k', t');
    NotServedTwice(q, sched, push, c, k', t', k, t);
  }

  /** A call made after another one has its slot access behind it gets a later ticket: first in, first out. */
  lemma {:induction false} LaterCallLaterTicket<T>(q: Queue<T>, sched: seq<Action<T>>, push: bool, k: nat, c: nat,
                                                   t: nat, k': nat, c': nat, t': nat)
    requires Init(q) && Serves(q, sched, push, k, c, t) && Serves(q, sched, push, k', c', t') && k < c'
    ensures t < t'
  {
    var early, late := sched[..k], sched[..k'];
    assert late[..c'] == sched[..c'] && late[..c'][..k] == early;
    RunKeepsInv(q, early);
    StaysInCall(q, late, push, sched[k'].i);
    RunGrows(q, sched[..c'], push, k);
    var i := sched[k].i;
    assert ThreadInv(SideOf(Run(q, early), push), SideOf(Run(q, early), push).threads[i],
                     if push then Run(q, early).pushed.Keys else Run(q, early).popped.Keys);
    hide Run, LastCall, Init;
  }
}
