/**
  Command identifiers of kernel/nvme.c as a specification: the table as a value, one function per operation, and what
  holds over every run of allocations, completions, timeouts and aborts.
*/
module NvmeIds {
  import opened Common

  /** A completion function: NULL in a record never used, special_completion, or one of a caller. */
  datatype Fn = NullFn | Special | Handler(h: nat)

  datatype Ctx = NullCtx | CtxCancelled | CtxCompleted | CtxInvalid | CtxFlush | Caller(c: nat)

  datatype Info = Info(fn: Fn, ctx: Ctx, timeout: int)

  /** A call of a completion function, or what would be called. */
  datatype Call = Call(fn: Fn, ctx: Ctx)

  /**
    The identifier table of a queue: the bitmap and the records, both as long as q_depth although only the
    identifiers below q_depth - 1 are handed out. The other fields are history: owner[id] is the number of
    the allocation whose handler is still registered at id, registered is what each allocation passed, ran
    lists the allocations whose handler was called and aborted those whose handler was discarded.
  */
  datatype Ids = Ids(bits: seq<bool>, info: seq<Info>, owner: seq<Option<nat>>, registered: seq<Call>,
                     ran: seq<nat>, aborted: seq<nat>)

  // ---------------------------------------------------------------- operations on the table

  function FirstZero(bits: seq<bool>, limit: nat): (r: nat)
    requires limit <= |bits|
    ensures r <= limit && (forall k :: 0 <= k < r ==> bits[k]) && (r < limit ==> !bits[r])
  {
    if limit == 0 then 0
    else
      var r := FirstZero(bits, limit - 1);
      if r < limit - 1 || !bits[limit - 1] then r else limit
  }

  predicate Sized(t: Ids) {
    |t.bits| == |t.info| == |t.owner| && |t.bits| > 0
  }

  /** alloc_cmdid: the lowest clear bit, or -EBUSY. */
  function Alloc(t: Ids, fn: Fn, ctx: Ctx, timeout: int): (r: (Ids, Option<nat>))
    requires Sized(t)
    ensures Sized(r.0) && |r.0.bits| == |t.bits|
  {
    var id := FirstZero(t.bits, |t.bits| - 1);
    if id == |t.bits| - 1 then (t, None)
    else
      (Ids(t.bits[id := true], t.info[id := Info(fn, ctx, timeout)], t.owner[id := Some(|t.registered|)],
           t.registered + [Call(fn, ctx)], t.ran, t.aborted), Some(id))
  }

  /** The allocation, if any, whose handler leaves the record of id. */
  function Leaving(t: Ids, id: nat): seq<nat>
    requires Sized(t) && id < |t.bits|
  {
    if t.owner[id].Some? then [t.owner[id].value] else []
  }

  /** free_cmdid followed by the call of the function it returns, as nvme_process_cq does. */
  function Complete(t: Ids, id: nat): (r: Ids)
    requires Sized(t)
    ensures Sized(r) && |r.bits| == |t.bits|
  {
    if id >= |t.bits| then t
    else
      t.(bits := t.bits[id := false], info := t.info[id := Info(Special, CtxCompleted, t.info[id].timeout)],
         owner := t.owner[id := None], ran := t.ran + Leaving(t, id))
  }

  /** cancel_cmdid; run tells whether the caller then calls the function it returned. */
  function Cancel(t: Ids, id: nat, run: bool): (r: Ids)
    requires Sized(t) && id < |t.bits|
    ensures Sized(r) && |r.bits| == |t.bits|
  {
    t.(info := t.info[id := Info(Special, CtxCancelled, t.info[id].timeout)],
       owner := t.owner[id := None],
       ran := t.ran + (if run then Leaving(t, id) else []), aborted := t.aborted + (if run then [] else Leaving(t, id)))
  }

  /** nvme_timeout_ios from identifier k on. */
  function TimeoutFrom(t: Ids, now: int, k: nat): (r: Ids)
    requires Sized(t)
    ensures Sized(r) && |r.bits| == |t.bits|
    decreases |t.bits| - k
  {
    if k >= |t.bits| - 1 then t
    else TimeoutFrom(if t.bits[k] && now > t.info[k].timeout then Cancel(t, k, true) else t, now, k + 1)
  }

  /** What the record of id says. */
  function CallAt(t: Ids, id: nat): Call
    requires id < |t.info|
  {
    Call(t.info[id].fn, t.info[id].ctx)
  }

  /** The functions nvme_timeout_ios calls, with their contexts. */
  function TimeoutCalls(t: Ids, now: int, k: nat): seq<Call>
    requires Sized(t)
    decreases |t.bits| - k
  {
    if k >= |t.bits| - 1 then []
    else if t.bits[k] && now > t.info[k].timeout then
      [CallAt(t, k)] + TimeoutCalls(Cancel(t, k, true), now, k + 1)
    else TimeoutCalls(t, now, k + 1)
  }

  // ---------------------------------------------------------------- what a timeout scan does

  /** The identifier can be handed out, is in use, and its deadline has passed. */
  predicate Late(t: Ids, now: int, id: nat)
    requires Sized(t)
  {
    id < |t.bits| - 1 && t.bits[id] && now > t.info[id].timeout
  }

  /** The late identifiers from k on: each of them once, the lowest first. */
  function LateFrom(t: Ids, now: int, k: nat): (r: seq<nat>)
    requires Sized(t)
    ensures forall i :: 0 <= i < |r| ==> k <= r[i] && Late(t, now, r[i])
    ensures forall i, j :: 0 <= i < j < |r| ==> r[i] < r[j]
    decreases |t.bits| - k
  {
    if k >= |t.bits| - 1 then []
    else (if Late(t, now, k) then [k] else []) + LateFrom(t, now, k + 1)
  }

  lemma {:induction false} LateIsListed(t: Ids, now: int, k: nat, id: nat)
    requires Sized(t) && k <= id && Late(t, now, id)
    ensures id in LateFrom(t, now, k)
    decreases |t.bits| - k
  {
    if k < id {
      LateIsListed(t, now, k + 1, id);
    }
  }

  /** What the records of the identifiers say. */
  function CallsAt(t: Ids, ids: seq<nat>): seq<Call>
    requires forall i :: 0 <= i < |ids| ==> ids[i] < |t.info|
  {
    seq(|ids|, i requires 0 <= i < |ids| => CallAt(t, ids[i]))
  }

  /** Late identifiers above k are the same after the one at k was cancelled. */
  lemma {:induction false} LateAbove(t: Ids, u: Ids, now: int, k: nat)
    requires Sized(t) && Sized(u) && t.bits == u.bits
    requires forall id :: k <= id < |t.info| ==> t.info[id] == u.info[id]
    ensures LateFrom(t, now, k) == LateFrom(u, now, k)
    ensures CallsAt(t, LateFrom(t, now, k)) == CallsAt(u, LateFrom(u, now, k))
    decreases |t.bits| - k
  {
    if k < |t.bits| - 1 {
      LateAbove(t, u, now, k + 1);
    }
  }

  lemma {:induction false} LateFirst(t: Ids, now: int, k: nat)
    requires Sized(t) && Late(t, now, k)
    ensures CallsAt(t, LateFrom(t, now, k)) == [CallAt(t, k)] + CallsAt(t, LateFrom(t, now, k + 1))
  {
    assert LateFrom(t, now, k) == [k] + LateFrom(t, now, k + 1);
  }

  /** nvme_timeout_ios calls what is registered at the late identifiers, the lowest first. */
  lemma {:induction false} TimeoutCallsTheLate(t: Ids, now: int, k: nat)
    requires Sized(t)
    ensures TimeoutCalls(t, now, k) == CallsAt(t, LateFrom(t, now, k))
    decreases |t.bits| - k
  {
    if k < |t.bits| - 1 {
      if Late(t, now, k) {
        var u := Cancel(t, k, true);
        TimeoutCallsTheLate(u, now, k + 1);
        LateAbove(u, t, now, k + 1);
        hide LateFrom;
        assert TimeoutCalls(t, now, k) == [CallAt(t, k)] + CallsAt(t, LateFrom(t, now, k + 1));
        LateFirst(t, now, k);
      } else {
        TimeoutCallsTheLate(t, now, k + 1);
      }
    }
  }

  /** The records of the late identifiers become the cancelled marker, with their identifiers still in use; no
      other record changes. */
  lemma {:induction false} TimeoutCancelsTheLate(t: Ids, now: int, k: nat, id: nat)
    requires Sized(t) && id < |t.bits|
    ensures var r := TimeoutFrom(t, now, k); var late := id >= k && Late(t, now, id);
      && r.bits == t.bits && r.registered == t.registered && r.aborted == t.aborted
      && r.info[id] == (if late then Info(Special, CtxCancelled, t.info[id].timeout) else t.info[id])
      && r.owner[id] == (if late then None else t.owner[id])
    decreases |t.bits| - k
  {
    if k < |t.bits| - 1 {
      TimeoutCancelsTheLate(if Late(t, now, k) then Cancel(t, k, true) else t, now, k + 1, id);
    }
  }

  // ---------------------------------------------------------------- the table over every run

  datatype Op =
    | OpAlloc(fn: Fn, ctx: Ctx, timeout: int)
    | OpComplete(id: nat)
    | OpTimeout(now: int)
    | OpAbort(id: nat)

  function Apply(t: Ids, op: Op): (r: Ids)
    requires Sized(t)
    ensures Sized(r) && |r.bits| == |t.bits|
  {
    match op
    case OpAlloc(fn, ctx, timeout) => Alloc(t, fn, ctx, timeout).0
    case OpComplete(id) => Complete(t, id)
    case OpTimeout(now) => TimeoutFrom(t, now, 0)
    case OpAbort(id) => if id < |t.bits| then Cancel(t, id, false) else t
  }

  function ApplyAll(t: Ids, ops: seq<Op>): (r: Ids)
    requires Sized(t)
    ensures Sized(r) && |r.bits| == |t.bits|
    decreases |ops|
  {
    if ops == [] then t else Apply(ApplyAll(t, ops[..|ops| - 1]), ops[|ops| - 1])
  }

  /** What an operation passes to the table, when it gets an identifier. */
  function PassedBy(t: Ids, op: Op): seq<Call>
    requires Sized(t)
  {
    if op.OpAlloc? && Alloc(t, op.fn, op.ctx, op.timeout).1.Some? then [Call(op.fn, op.ctx)] else []
  }

  /** The completion functions an operation calls: what free_cmdid and cancel_cmdid return. */
  function CalledBy(t: Ids, op: Op): seq<Call>
    requires Sized(t)
  {
    match op
    case OpAlloc(_, _, _) => []
    case OpComplete(id) => [if id < |t.bits| then CallAt(t, id) else Call(Special, CtxInvalid)]
    case OpTimeout(now) => TimeoutCalls(t, now, 0)
    case OpAbort(_) => []
  }

  /** What nvme_abort_command takes out of the table without calling it. */
  function DroppedBy(t: Ids, op: Op): seq<Call>
    requires Sized(t)
  {
    if op.OpAbort? && op.id < |t.bits| then [CallAt(t, op.id)] else []
  }

  function PassedIn(t: Ids, ops: seq<Op>): seq<Call>
    requires Sized(t)
    decreases |ops|
  {
    if ops == [] then []
    else PassedIn(t, ops[..|ops| - 1]) + PassedBy(ApplyAll(t, ops[..|ops| - 1]), ops[|ops| - 1])
  }

  /** All calls of completion functions during a run, in order. */
  function CalledIn(t: Ids, ops: seq<Op>): seq<Call>
    requires Sized(t)
    decreases |ops|
  {
    if ops == [] then []
    else CalledIn(t, ops[..|ops| - 1]) + CalledBy(ApplyAll(t, ops[..|ops| - 1]), ops[|ops| - 1])
  }

  function DroppedIn(t: Ids, ops: seq<Op>): seq<Call>
    requires Sized(t)
    decreases |ops|
  {
    if ops == [] then []
    else DroppedIn(t, ops[..|ops| - 1]) + DroppedBy(ApplyAll(t, ops[..|ops| - 1]), ops[|ops| - 1])
  }

  function Fresh(depth: nat): Ids
    requires depth > 0
  {
    Ids(seq(depth, _ => false), seq(depth, _ => Info(NullFn, NullCtx, 0)), seq(depth, _ => None), [], [], [])
  }

  /** Allocation n is waiting at identifier id. */
  predicate WaitsAt(t: Ids, n: nat, id: nat) {
    id < |t.owner| && t.owner[id] == Some(n)
  }

  ghost predicate Waits(t: Ids, n: nat) {
    exists id: nat :: WaitsAt(t, n, id)
  }

  function Times(s: seq<nat>, n: nat): nat {
    multiset(s)[n]
  }

  /** What the records say. */
  ghost predicate Records(t: Ids) {
    && Sized(t)
    && !t.bits[|t.bits| - 1]
    && (forall id :: 0 <= id < |t.owner| && t.owner[id].Some? ==>
          && t.bits[id] && t.owner[id].value < |t.registered|
          && CallAt(t, id) == t.registered[t.owner[id].value])
    && (forall id :: 0 <= id < |t.owner| && t.owner[id].None? ==> !t.info[id].fn.Handler?)
    && (forall id, jd :: 0 <= id < jd < |t.owner| && t.owner[id].Some? ==> t.owner[id] != t.owner[jd])
  }

  /** Every allocation is accounted for exactly once: its handler is registered, was called, or was discarded by
      an abort. */
  ghost predicate Counted(t: Ids) {
    forall n: nat :: Times(t.ran, n) + Times(t.aborted, n) + (if Waits(t, n) then 1 else 0)
                  == if n < |t.registered| then 1 else 0
  }

  ghost predicate TableInv(t: Ids) {
    Records(t) && Counted(t)
  }

  lemma {:induction false} FreshTable(depth: nat)
    requires depth > 0
    ensures TableInv(Fresh(depth))
  {
  }

  lemma {:induction false} AllocKeepsTable(t: Ids, fn: Fn, ctx: Ctx, timeout: int)
    requires TableInv(t)
    ensures TableInv(Alloc(t, fn, ctx, timeout).0)
  {
    var (t', r) := Alloc(t, fn, ctx, timeout);
    if r.Some? {
      var id := r.value;
      assert WaitsAt(t', |t.registered|, id);
      assert forall n: nat, jd: nat :: jd != id ==> WaitsAt(t', n, jd) == WaitsAt(t, n, jd);
      assert forall n: nat :: n != |t.registered| ==> Waits(t', n) == Waits(t, n);
    }
  }

  /** The handler of id is taken out of its record, and then called or not. */
  ghost predicate Dropped(t: Ids, t': Ids, id: nat, run: bool)
    requires Sized(t) && id < |t.bits|
  {
    && Sized(t') && |t'.bits| == |t.bits| && t'.registered == t.registered
    && t'.owner == t.owner[id := None]
    && t'.ran == t.ran + (if run then Leaving(t, id) else [])
    && t'.aborted == t.aborted + (if run then [] else Leaving(t, id))
    && t'.info == t.info[id := t'.info[id]] && !t'.info[id].fn.Handler?
    && (t'.bits == t.bits || t'.bits == t.bits[id := false])
  }

  lemma {:induction false} DropKeepsCount(t: Ids, t': Ids, id: nat, run: bool)
    requires Records(t) && Counted(t) && id < |t.bits| && Dropped(t, t', id, run)
    ensures Counted(t')
  {
    assert forall n: nat, jd: nat :: jd != id ==> WaitsAt(t', n, jd) == WaitsAt(t, n, jd);
    forall n: nat
      ensures Times(t'.ran, n) + Times(t'.aborted, n) + (if Waits(t', n) then 1 else 0)
           == Times(t.ran, n) + Times(t.aborted, n) + (if Waits(t, n) then 1 else 0)
    {
      if t.owner[id] == Some(n) {
        assert WaitsAt(t, n, id);
        assert !Waits(t', n);
      } else {
        assert Waits(t', n) == Waits(t, n);
      }
    }
  }

  lemma {:induction false} DropKeepsTable(t: Ids, t': Ids, id: nat, run: bool)
    requires TableInv(t) && id < |t.bits| && Dropped(t, t', id, run)
    ensures TableInv(t')
  {
    DropKeepsCount(t, t', id, run);
    hide Counted;
  }

  lemma {:induction false} TimeoutKeepsTable(t: Ids, now: int, k: nat)
    requires TableInv(t)
    ensures TableInv(TimeoutFrom(t, now, k))
    decreases |t.bits| - k
  {
    if k < |t.bits| - 1 {
      if t.bits[k] && now > t.info[k].timeout {
        DropKeepsTable(t, Cancel(t, k, true), k, true);
        TimeoutKeepsTable(Cancel(t, k, true), now, k + 1);
      } else {
        TimeoutKeepsTable(t, now, k + 1);
      }
    }
  }

  lemma {:induction false} ApplyKeepsTable(t: Ids, op: Op)
    requires TableInv(t)
    ensures TableInv(Apply(t, op))
  {
    match op
    case OpAlloc(fn, ctx, timeout) => AllocKeepsTable(t, fn, ctx, timeout);
    case OpComplete(id) =>
      if id < |t.bits| {
        DropKeepsTable(t, Complete(t, id), id, true);
      }
    case OpTimeout(now) => TimeoutKeepsTable(t, now, 0);
    case OpAbort(id) =>
      if id < |t.bits| {
        DropKeepsTable(t, Cancel(t, id, false), id, false);
      }
  }

  lemma {:induction false} RunKeepsTable(depth: nat, ops: seq<Op>)
    requires depth > 0
    ensures TableInv(ApplyAll(Fresh(depth), ops))
    decreases |ops|
  {
    if ops == [] {
      FreshTable(depth);
    } else {
      RunKeepsTable(depth, ops[..|ops| - 1]);
      ApplyKeepsTable(ApplyAll(Fresh(depth), ops[..|ops| - 1]), ops[|ops| - 1]);
    }
  }

  // ---------------------------------------------------------------- the calls of handlers over every run

  /** The calls of functions that some caller registered. */
  function OnlyHandlers(calls: seq<Call>): seq<Call>
    decreases |calls|
  {
    if calls == [] then []
    else
      var c := calls[|calls| - 1];
      OnlyHandlers(calls[..|calls| - 1]) + (if c.fn.Handler? then [c] else [])
  }

  lemma {:induction false} OnlyHandlersOfBoth(a: seq<Call>, b: seq<Call>)
    ensures OnlyHandlers(a + b) == OnlyHandlers(a) + OnlyHandlers(b)
    decreases |b|
  {
    if b == [] {
      assert a + b == a;
    } else {
      assert (a + b)[..|a + b| - 1] == a + b[..|b| - 1];
      OnlyHandlersOfBoth(a, b[..|b| - 1]);
    }
  }

  /** What the allocations ns passed. */
  function Registered(t: Ids, ns: seq<nat>): seq<Call>
    requires forall i :: 0 <= i < |ns| ==> ns[i] < |t.registered|
  {
    seq(|ns|, i requires 0 <= i < |ns| => t.registered[ns[i]])
  }

  /** The handlers called so far are those of the allocations in t.ran, and those discarded the ones of t.aborted. */
  ghost predicate Accounts(t: Ids, called: seq<Call>, dropped: seq<Call>) {
    && (forall i :: 0 <= i < |t.ran| ==> t.ran[i] < |t.registered|)
    && (forall i :: 0 <= i < |t.aborted| ==> t.aborted[i] < |t.registered|)
    && OnlyHandlers(called) == OnlyHandlers(Registered(t, t.ran))
    && OnlyHandlers(dropped) == OnlyHandlers(Registered(t, t.aborted))
  }

  /** The record of id is what its allocation passed: calling it calls that handler, if there is one. */
  ghost predicate Backed(t: Ids, id: nat)
    requires Sized(t) && id < |t.bits|
  {
    && (forall i :: 0 <= i < |Leaving(t, id)| ==> Leaving(t, id)[i] < |t.registered|)
    && OnlyHandlers([CallAt(t, id)]) == OnlyHandlers(Registered(t, Leaving(t, id)))
  }

  lemma {:induction false} RecordsAreBacked(t: Ids, id: nat)
    requires TableInv(t) && id < |t.bits|
    ensures Backed(t, id)
  {
    assert OnlyHandlers([]) == [];
    if t.owner[id].Some? {
      assert Registered(t, Leaving(t, id)) == [CallAt(t, id)];
    }
  }

  lemma {:induction false} RunAccounts(t: Ids, t': Ids, id: nat, called: seq<Call>, dropped: seq<Call>)
    requires Sized(t) && id < |t.bits| && Backed(t, id) && Accounts(t, called, dropped)
    requires t'.registered == t.registered && t'.ran == t.ran + Leaving(t, id) && t'.aborted == t.aborted
    ensures Accounts(t', called + [CallAt(t, id)], dropped)
  {
    hide OnlyHandlers, Leaving;
    OnlyHandlersOfBoth(called, [CallAt(t, id)]);
    OnlyHandlersOfBoth(Registered(t, t.ran), Registered(t, Leaving(t, id)));
    assert Registered(t', t'.ran) == Registered(t, t.ran) + Registered(t, Leaving(t, id));
    assert Registered(t', t'.aborted) == Registered(t, t.aborted);
  }

  lemma {:induction false} DropAccounts(t: Ids, t': Ids, id: nat, called: seq<Call>, dropped: seq<Call>)
    requires Sized(t) && id < |t.bits| && Backed(t, id) && Accounts(t, called, dropped)
    requires t'.registered == t.registered && t'.ran == t.ran && t'.aborted == t.aborted + Leaving(t, id)
    ensures Accounts(t', called, dropped + [CallAt(t, id)])
  {
    hide OnlyHandlers, Leaving;
    OnlyHandlersOfBoth(dropped, [CallAt(t, id)]);
    OnlyHandlersOfBoth(Registered(t, t.aborted), Registered(t, Leaving(t, id)));
    assert Registered(t', t'.aborted) == Registered(t, t.aborted) + Registered(t, Leaving(t, id));
    assert Registered(t', t'.ran) == Registered(t, t.ran);
  }

  lemma {:induction false} CancelAccounts(t: Ids, id: nat, called: seq<Call>, dropped: seq<Call>)
    requires TableInv(t) && id < |t.bits| && Accounts(t, called, dropped)
    ensures TableInv(Cancel(t, id, true))
    ensures Accounts(Cancel(t, id, true), called + [CallAt(t, id)], dropped)
  {
    RecordsAreBacked(t, id);
    DropKeepsTable(t, Cancel(t, id, true), id, true);
    hide TableInv, Accounts, Backed;
    RunAccounts(t, Cancel(t, id, true), id, called, dropped);
  }

  lemma {:induction false} Regroup(a: seq<Call>, b: seq<Call>, c: seq<Call>)
    ensures a + (b + c) == (a + b) + c
  {
  }

  lemma {:induction false} TimeoutAccounts(t: Ids, now: int, k: nat, called: seq<Call>, dropped: seq<Call>)
    requires TableInv(t) && Accounts(t, called, dropped)
    ensures Accounts(TimeoutFrom(t, now, k), called + TimeoutCalls(t, now, k), dropped)
    decreases |t.bits| - k
  {
    assert Sized(t);
    hide TableInv, Accounts;
    if k >= |t.bits| - 1 {
      assert called + [] == called;
    } else if Late(t, now, k) {
      CancelAccounts(t, k, called, dropped);
      hide Cancel;
      TimeoutAccounts(Cancel(t, k, true), now, k + 1, called + [CallAt(t, k)], dropped);
      Regroup(called, [CallAt(t, k)], TimeoutCalls(Cancel(t, k, true), now, k + 1));
    } else {
      TimeoutAccounts(t, now, k + 1, called, dropped);
    }
  }

  lemma {:induction false} AllocAccounts(t: Ids, fn: Fn, ctx: Ctx, timeout: int, called: seq<Call>, dropped: seq<Call>)
    requires Sized(t) && Accounts(t, called, dropped)
    ensures Accounts(Alloc(t, fn, ctx, timeout).0, called, dropped)
  {
    var t' := Alloc(t, fn, ctx, timeout).0;
    assert Registered(t', t'.ran) == Registered(t, t.ran);
    assert Registered(t', t'.aborted) == Registered(t, t.aborted);
  }

  lemma {:induction false} ApplyAccounts(t: Ids, op: Op, called: seq<Call>, dropped: seq<Call>)
    requires TableInv(t) && Accounts(t, called, dropped)
    ensures Accounts(Apply(t, op), called + CalledBy(t, op), dropped + DroppedBy(t, op))
  {
    assert called + [] == called && dropped + [] == dropped;
    match op
    case OpAlloc(fn, ctx, timeout) => AllocAccounts(t, fn, ctx, timeout, called, dropped);
    case OpComplete(id) =>
      if id < |t.bits| {
        RecordsAreBacked(t, id);
        RunAccounts(t, Complete(t, id), id, called, dropped);
      } else {
        OnlyHandlersOfBoth(called, [Call(Special, CtxInvalid)]);
        assert OnlyHandlers([Call(Special, CtxInvalid)]) == OnlyHandlers([]) == [];
      }
    case OpTimeout(now) => TimeoutAccounts(t, now, 0, called, dropped);
    case OpAbort(id) =>
      if id < |t.bits| {
        RecordsAreBacked(t, id);
        DropAccounts(t, Cancel(t, id, false), id, called, dropped);
      }
  }

  lemma {:induction false} RegisteredGrows(t: Ids, op: Op)
    requires Sized(t)
    ensures Apply(t, op).registered == t.registered + PassedBy(t, op)
  {
    if op.OpTimeout? {
      TimeoutCancelsTheLate(t, op.now, 0, 0);
    }
  }

  /**
    Over any sequence of operations, whatever completions the device sends: the handlers called are, in order,
    those passed by the allocations listed in t.ran, and those discarded the ones passed by the allocations
    in t.aborted.
  */
  lemma {:induction false} CallsAreThoseOfRan(depth: nat, ops: seq<Op>)
    requires depth > 0
    ensures var t := ApplyAll(Fresh(depth), ops);
      && TableInv(t) && t.registered == PassedIn(Fresh(depth), ops)
      && Accounts(t, CalledIn(Fresh(depth), ops), DroppedIn(Fresh(depth), ops))
    decreases |ops|
  {
    if ops == [] {
      FreshTable(depth);
      assert OnlyHandlers([]) == [];
    } else {
      var before := ops[..|ops| - 1];
      var t := ApplyAll(Fresh(depth), before);
      CallsAreThoseOfRan(depth, before);
      hide TableInv, Accounts, Apply, CalledBy, DroppedBy, PassedBy;
      ApplyKeepsTable(t, ops[|ops| - 1]);
      ApplyAccounts(t, ops[|ops| - 1], CalledIn(Fresh(depth), before), DroppedIn(Fresh(depth), before));
      RegisteredGrows(t, ops[|ops| - 1]);
    }
  }

  // ---------------------------------------------------------------- handlers passed, called, dropped and waiting

  function CallCount(calls: seq<Call>, c: Call): nat {
    multiset(calls)[c]
  }

  /** The identifiers whose record holds c. */
  function Holding(t: Ids, c: Call): set<nat> {
    set id | 0 <= id < |t.info| && CallAt(t, id) == c
  }

  /** Overwriting a record that held x with y. */
  lemma {:induction false} HoldingAfterWrite(t: Ids, t': Ids, id: nat, c: Call)
    requires id < |t.info| && |t'.info| == |t.info|
    requires forall jd :: 0 <= jd < |t.info| && jd != id ==> t'.info[jd] == t.info[jd]
    ensures |Holding(t', c)| + (if CallAt(t, id) == c then 1 else 0)
         == |Holding(t, c)| + (if CallAt(t', id) == c then 1 else 0)
  {
    var others := Holding(t, c) - {id};
    assert Holding(t', c) == others + (if CallAt(t', id) == c then {id} else {});
    assert Holding(t, c) == others + (if CallAt(t, id) == c then {id} else {});
  }

  lemma {:induction false} CountOfOne(x: Call, c: Call)
    ensures CallCount([x], c) == if x == c then 1 else 0
    ensures CallCount([], c) == 0
  {
  }

  lemma {:induction false} CountOfBoth(a: seq<Call>, b: seq<Call>, c: Call)
    ensures CallCount(a + b, c) == CallCount(a, c) + CallCount(b, c)
  {
  }

  lemma {:induction false} CancelConserves(t: Ids, id: nat, c: Call)
    requires Sized(t) && id < |t.bits| && c.fn.Handler?
    ensures CallCount([CallAt(t, id)], c) + |Holding(Cancel(t, id, true), c)| == |Holding(t, c)|
  {
    HoldingAfterWrite(t, Cancel(t, id, true), id, c);
    CountOfOne(CallAt(t, id), c);
    hide Holding, CallCount;
  }

  lemma {:induction false} TimeoutConserves(t: Ids, now: int, k: nat, c: Call)
    requires Sized(t) && c.fn.Handler?
    ensures CallCount(TimeoutCalls(t, now, k), c) + |Holding(TimeoutFrom(t, now, k), c)| == |Holding(t, c)|
    decreases |t.bits| - k
  {
    CountOfOne(c, c);
    hide Holding, CallCount, Cancel;
    if k < |t.bits| - 1 {
      if Late(t, now, k) {
        var u := Cancel(t, k, true);
        CancelConserves(t, k, c);
        TimeoutConserves(u, now, k + 1, c);
        CountOfBoth([CallAt(t, k)], TimeoutCalls(u, now, k + 1), c);
      } else {
        TimeoutConserves(t, now, k + 1, c);
      }
    }
  }

  lemma {:induction false} ApplyConserves(t: Ids, op: Op, c: Call)
    requires TableInv(t) && c.fn.Handler?
    ensures CallCount(CalledBy(t, op), c) + CallCount(DroppedBy(t, op), c) + |Holding(Apply(t, op), c)|
         == CallCount(PassedBy(t, op), c) + |Holding(t, c)|
  {
    hide Holding, CallCount;
    CountOfOne(c, c);
    match op
    case OpAlloc(fn, ctx, timeout) =>
      var (t', r) := Alloc(t, fn, ctx, timeout);
      if r.Some? {
        CountOfOne(Call(fn, ctx), c);
        HoldingAfterWrite(t, t', r.value, c);
      }
    case OpComplete(id) =>
      if id < |t.bits| {
        CountOfOne(CallAt(t, id), c);
        HoldingAfterWrite(t, Complete(t, id), id, c);
      } else {
        CountOfOne(Call(Special, CtxInvalid), c);
      }
    case OpTimeout(now) => TimeoutConserves(t, now, 0, c);
    case OpAbort(id) =>
      if id < |t.bits| {
        CountOfOne(CallAt(t, id), c);
        HoldingAfterWrite(t, Cancel(t, id, false), id, c);
      }
  }

  /**
    Over any sequence of operations, whatever completions the device sends: a handler with its context has been
    called, was taken out by an abort, or is waiting in a record, exactly as often as it was passed by
    allocations. So one passed once is called at most once, never after it was aborted, and never lost.
  */
  lemma {:induction false} HandlersRunOnce(depth: nat, ops: seq<Op>, c: Call)
    requires depth > 0 && c.fn.Handler?
    ensures CallCount(CalledIn(Fresh(depth), ops), c) + CallCount(DroppedIn(Fresh(depth), ops), c)
          + |Holding(ApplyAll(Fresh(depth), ops), c)|
         == CallCount(PassedIn(Fresh(depth), ops), c)
    decreases |ops|
  {
    if ops == [] {
      assert Holding(Fresh(depth), c) == {};
    } else {
      var before := ops[..|ops| - 1];
      HandlersRunOnce(depth, before, c);
      RunKeepsTable(depth, before);
      ApplyConserves(ApplyAll(Fresh(depth), before), ops[|ops| - 1], c);
    }
  }

  // ---------------------------------------------------------------- calls of NULL

  /** The operation writes the record of id. */
  predicate Writes(t: Ids, op: Op, id: nat)
    requires Sized(t)
  {
    match op
    case OpAlloc(fn, ctx, timeout) => Alloc(t, fn, ctx, timeout).1 == Some(id)
    case OpComplete(jd) => jd == id
    case OpTimeout(now) => Late(t, now, id)
    case OpAbort(jd) => jd == id
  }

  predicate EverWritten(t: Ids, ops: seq<Op>, id: nat)
    requires Sized(t)
    decreases |ops|
  {
    ops != [] &&
    (EverWritten(t, ops[..|ops| - 1], id) || Writes(ApplyAll(t, ops[..|ops| - 1]), ops[|ops| - 1], id))
  }

  /** No caller of alloc_cmdid passes NULL. */
  predicate NoNull(ops: seq<Op>) {
    forall i :: 0 <= i < |ops| && ops[i].OpAlloc? ==> ops[i].fn != NullFn
  }

  lemma {:induction false} RecordIsNull(depth: nat, ops: seq<Op>, id: nat)
    requires id < depth && NoNull(ops)
    ensures var t := ApplyAll(Fresh(depth), ops);
      && (t.info[id].fn == NullFn <==> !EverWritten(Fresh(depth), ops, id))
      && (t.bits[id] ==> t.info[id].fn != NullFn)
    decreases |ops|
  {
    if ops != [] {
      var before, op := ops[..|ops| - 1], ops[|ops| - 1];
      assert NoNull(before) && (op.OpAlloc? ==> op.fn != NullFn);
      RecordIsNull(depth, before, id);
      hide NoNull;
      if op.OpTimeout? {
        TimeoutCancelsTheLate(ApplyAll(Fresh(depth), before), op.now, 0, id);
      }
    }
  }

  ghost predicate CallsNull(calls: seq<Call>) {
    exists i :: 0 <= i < |calls| && calls[i].fn == NullFn
  }

  /** The function called is NULL exactly when the device completes an identifier below q_depth that was never
      handed out, completed or aborted before. */
  lemma {:induction false} NullCalledIff(depth: nat, ops: seq<Op>, op: Op)
    requires depth > 0 && NoNull(ops)
    ensures CallsNull(CalledBy(ApplyAll(Fresh(depth), ops), op))
        <==> op.OpComplete? && op.id < depth && !EverWritten(Fresh(depth), ops, op.id)
  {
    var t := ApplyAll(Fresh(depth), ops);
    match op
    case OpAlloc(_, _, _) =>
    case OpComplete(id) =>
      if id < depth {
        RecordIsNull(depth, ops, id);
      }
      assert CalledBy(t, op)[0].fn == NullFn <==> CallsNull(CalledBy(t, op));
    case OpTimeout(now) =>
      TimeoutCallsTheLate(t, now, 0);
      var late := LateFrom(t, now, 0);
      forall i | 0 <= i < |late| ensures CallAt(t, late[i]).fn != NullFn {
        RecordIsNull(depth, ops, late[i]);
      }
    case OpAbort(_) =>
  }

  /** The table of a new queue: a completion for identifier 0 calls NULL. */
  lemma {:induction false} StrayCompletionCallsNull()
    ensures CalledIn(Fresh(2), [OpComplete(0)]) == [Call(NullFn, NullCtx)]
  {
  }

  /** An identifier in use - cancelled or not - is not handed out again until a completion for it arrives. */
  lemma {:induction false} InUseUntilCompleted(t: Ids, id: nat, ops: seq<Op>)
    requires Sized(t) && id < |t.bits| - 1 && t.bits[id]
    requires forall i :: 0 <= i < |ops| ==> ops[i] != OpComplete(id)
    ensures ApplyAll(t, ops).bits[id]
    ensures forall fn, ctx, timeout :: Alloc(ApplyAll(t, ops), fn, ctx, timeout).1 != Some(id)
    decreases |ops|
  {
    if ops != [] {
      var before := ops[..|ops| - 1];
      InUseUntilCompleted(t, id, before);
      var u := ApplyAll(t, before);
      assert ops[|ops| - 1] != OpComplete(id);
      if ops[|ops| - 1].OpTimeout? {
        TimeoutCancelsTheLate(u, ops[|ops| - 1].now, 0, id);
      }
    }
  }

  // ---------------------------------------------------------------- deadlines over every run

  /** alloc_cmdid refuses exactly when no identifier below q_depth - 1 is free. */
  lemma {:induction false} RefusesIffFull(t: Ids, fn: Fn, ctx: Ctx, timeout: int)
    requires Sized(t)
    ensures Alloc(t, fn, ctx, timeout).1.None? <==> forall id :: 0 <= id < |t.bits| - 1 ==> t.bits[id]
  {
  }

  /** No operation completes or aborts id, and no timeout scan comes after the deadline. */
  predicate Undisturbed(ops: seq<Op>, id: nat, deadline: int) {
    forall i :: 0 <= i < |ops| ==>
      && ops[i] != OpComplete(id) && ops[i] != OpAbort(id)
      && (ops[i].OpTimeout? ==> ops[i].now <= deadline)
  }

  lemma {:induction false} RecordWaits(t: Ids, id: nat, ops: seq<Op>)
    requires Sized(t) && id < |t.bits| - 1 && t.bits[id] && Undisturbed(ops, id, t.info[id].timeout)
    ensures ApplyAll(t, ops).bits[id] && ApplyAll(t, ops).info[id] == t.info[id]
    decreases |ops|
  {
    if ops != [] {
      var before, op := ops[..|ops| - 1], ops[|ops| - 1];
      assert op != OpComplete(id) && op != OpAbort(id) && (op.OpTimeout? ==> op.now <= t.info[id].timeout);
      RecordWaits(t, id, before);
      if op.OpTimeout? {
        TimeoutCancelsTheLate(ApplyAll(t, before), op.now, 0, id);
      }
    }
  }

  /**
    A command is not timed out early: as long as it is neither completed nor aborted, its record holds what alloc_cmdid
    was given through all timeout scans up to its deadline, and a scan visits it exactly when it comes after it.
  */
  lemma {:induction false} DeadlineDecides(t: Ids, fn: Fn, ctx: Ctx, timeout: int, ops: seq<Op>, now: int)
    requires Sized(t)
    requires var r := Alloc(t, fn, ctx, timeout); r.1.Some? && Undisturbed(ops, r.1.value, timeout)
    ensures var (t', r) := Alloc(t, fn, ctx, timeout); var u := ApplyAll(t', ops);
      && r.value < |u.bits| - 1 && u.bits[r.value] && u.info[r.value] == Info(fn, ctx, timeout)
      && (r.value in LateFrom(u, now, 0) <==> now > timeout)
  {
    var (t', r) := Alloc(t, fn, ctx, timeout);
    RecordWaits(t', r.value, ops);
    var u := ApplyAll(t', ops);
    if now > timeout {
      LateIsListed(u, now, 0, r.value);
    }
  }

  /** Some operation of the run passed the handler of id and got id for it, with the deadline on record. */
  ghost predicate PassedFor(t: Ids, ops: seq<Op>, id: nat, c: Call, deadline: int, i: nat)
    requires Sized(t)
  {
    && i < |ops| && ops[i] == OpAlloc(c.fn, c.ctx, deadline)
    && Alloc(ApplyAll(t, ops[..i]), c.fn, c.ctx, deadline).1 == Some(id)
  }

  lemma {:induction false} PassedLater(t: Ids, ops: seq<Op>, op: Op, id: nat, c: Call, deadline: int, i: nat)
    requires Sized(t) && PassedFor(t, ops, id, c, deadline, i)
    ensures PassedFor(t, ops + [op], id, c, deadline, i)
  {
    assert (ops + [op])[..i] == ops[..i];
  }

  /** A handler on record was passed for its identifier, with the deadline on record. */
  lemma {:induction false} HandlerWasPassed(depth: nat, ops: seq<Op>, id: nat) returns (i: nat)
    requires id < depth && ApplyAll(Fresh(depth), ops).info[id].fn.Handler?
    ensures var t := ApplyAll(Fresh(depth), ops);
      PassedFor(Fresh(depth), ops, id, CallAt(t, id), t.info[id].timeout, i)
    decreases |ops|
  {
    if ops == [] {
      assert false;
    } else {
      var before, op := ops[..|ops| - 1], ops[|ops| - 1];
      var u := ApplyAll(Fresh(depth), before);
      assert ops == before + [op];
      if op.OpTimeout? {
        TimeoutCancelsTheLate(u, op.now, 0, id);
      }
      if op.OpAlloc? && Alloc(u, op.fn, op.ctx, op.timeout).1 == Some(id) {
        i := |before|;
      } else {
        assert ApplyAll(Fresh(depth), ops).info[id] == u.info[id];
        i := HandlerWasPassed(depth, before, id);
        hide ApplyAll;
        PassedLater(Fresh(depth), before, op, id, CallAt(u, id), u.info[id].timeout, i);
      }
    }
  }

  /** In every run, a timeout scan calls a handler only for an allocation that passed it with an earlier deadline. */
  lemma {:induction false} NoEarlyTimeout(depth: nat, ops: seq<Op>, now: int, k: nat) returns (id: nat, i: nat)
    requires depth > 0
    requires var calls := CalledBy(ApplyAll(Fresh(depth), ops), OpTimeout(now)); k < |calls| && calls[k].fn.Handler?
    ensures i < |ops| && ops[i].OpAlloc? && ops[i].timeout < now
    ensures var call := CalledBy(ApplyAll(Fresh(depth), ops), OpTimeout(now))[k];
      PassedFor(Fresh(depth), ops, id, call, ops[i].timeout, i)
  {
    var t := ApplyAll(Fresh(depth), ops);
    TimeoutCallsTheLate(t, now, 0);
    id := LateFrom(t, now, 0)[k];
    i := HandlerWasPassed(depth, ops, id);
  }
}
