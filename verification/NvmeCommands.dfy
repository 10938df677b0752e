/**
  The driver's code for identifiers and submissions in kernel/nvme.c, over arrays: alloc_cmdid, free_cmdid,
  cancel_cmdid, nvme_timeout_ios, nvme_submit_cmd, nvme_submit_flush and nvme_submit_flush_data, proved against
  the table and the ring machine.
*/
module NvmeCommands {
  import opened Common
  import opened NvmeIds
  import opened NvmeRing

  lemma {:induction false} FirstZeroIs(bits: seq<bool>, limit: nat, k: nat)
    requires k <= limit <= |bits| && (forall j :: 0 <= j < k ==> bits[j]) && (k < limit ==> !bits[k])
    ensures FirstZero(bits, limit) == k
  {
  }

  /** nvme_queue, as far as identifiers and submissions go. The ghost fields are the history. */
  class NvmeQueue {
    const qDepth: nat
    const cmdidData: array<bool>
    const info: array<Info>
    const sqCmds: array<Cmd>
    var sqTail: nat
    var doorbell: nat
    ghost var owner: seq<Option<nat>>
    ghost var registered: seq<Call>
    ghost var ran: seq<nat>
    ghost var aborted: seq<nat>

    ghost predicate Valid()
      reads this, cmdidData, info, sqCmds
    {
      && qDepth > 0
      && cmdidData.Length == info.Length == sqCmds.Length == qDepth == |owner|
      && sqTail < qDepth && doorbell == sqTail
    }

    ghost function Table(): Ids
      reads this, cmdidData, info
    {
      Ids(cmdidData[..], info[..], owner, registered, ran, aborted)
    }

    constructor (depth: nat)
      requires depth > 0
      ensures Valid() && Table() == Fresh(depth) && qDepth == depth && sqTail == doorbell == 0
      ensures fresh(cmdidData) && fresh(info) && fresh(sqCmds)
    {
      qDepth := depth;
      cmdidData := new bool[depth](_ => false);
      info := new Info[depth](_ => Info(NullFn, NullCtx, 0));
      sqCmds := new Cmd[depth](_ => Cmd(0, Other(0)));
      sqTail, doorbell := 0, 0;
      owner := seq(depth, _ => None);
      registered, ran, aborted := [], [], [];
    }

    /** The arrays hold what the machine m says. */
    ghost predicate Represents(m: Machine)
      reads this, cmdidData, info, sqCmds
    {
      Shaped(m) && Table() == m.ids && sqCmds[..] == m.ring && sqTail == Tail(m)
    }

    /** alloc_cmdid. */
    method AllocCmdid(ctx: Ctx, handler: Fn, timeout: int) returns (r: Option<nat>)
      requires Valid()
      modifies this`owner, this`registered, cmdidData, info
      ensures Valid()
      // the lowest free identifier below q_depth - 1 and nothing else, or -EBUSY exactly when there is none
      ensures r.Some? <==> exists id :: 0 <= id < qDepth - 1 && !old(cmdidData[id])
      ensures r.Some? ==>
        && r.value < qDepth - 1 && !old(cmdidData[r.value]) && (forall id :: 0 <= id < r.value ==> old(cmdidData[id]))
        && cmdidData[..] == old(cmdidData[..])[r.value := true]
        && info[..] == old(info[..])[r.value := Info(handler, ctx, timeout)]
      ensures r.None? ==> cmdidData[..] == old(cmdidData[..]) && info[..] == old(info[..])
      ensures (Table(), r) == Alloc(old(Table()), handler, ctx, timeout)
      ensures forall m :: old(Represents(m)) ==> Represents(Next(m, Allocate(handler, ctx, timeout)))
    {
      forall m | Represents(m)
        ensures var r := Next(m, Allocate(handler, ctx, timeout));
          r.ids == Alloc(m.ids, handler, ctx, timeout).0 && r.ring == m.ring && Tail(r) == Tail(m)
      {
        AllocateKeepsTail(m, handler, ctx, timeout);
      }
      hide Next, Tail;
      var depth := qDepth - 1;
      var cmdid := 0;
      while cmdid < depth && cmdidData[cmdid]
        invariant 0 <= cmdid <= depth
        invariant forall k :: 0 <= k < cmdid ==> cmdidData[k]
      {
        cmdid := cmdid + 1;
      }
      FirstZeroIs(cmdidData[..], depth, cmdid);
      if cmdid >= depth {
        return None;
      }
      cmdidData[cmdid] := true;
      info[cmdid] := Info(handler, ctx, timeout);
      owner := owner[cmdid := Some(|registered|)];
      registered := registered + [Call(handler, ctx)];
      return Some(cmdid);
    }

    /** free_cmdid: also answers for identifiers that do not exist. */
    method FreeCmdid(cmdid: nat) returns (fn: Fn, ctx: Ctx)
      requires Valid()
      modifies this`owner, this`ran, cmdidData, info
      ensures Valid()
      ensures Table() == Complete(old(Table()), cmdid)
      ensures forall m :: old(Represents(m)) && Allowed(m, Finish(cmdid)) ==> Represents(Next(m, Finish(cmdid)))
      ensures (fn, ctx) == if cmdid < qDepth then old((info[cmdid].fn, info[cmdid].ctx)) else (Special, CtxInvalid)
      ensures cmdid < qDepth ==>
        && cmdidData[..] == old(cmdidData[..])[cmdid := false]
        && info[..] == old(info[..])[cmdid := Info(Special, CtxCompleted, old(info[cmdid].timeout))]
      ensures cmdid >= qDepth ==> cmdidData[..] == old(cmdidData[..]) && info[..] == old(info[..])
      ensures CalledBy(old(Table()), OpComplete(cmdid)) == [Call(fn, ctx)]
    {
      if cmdid >= qDepth {
        return Special, CtxInvalid;
      }
      fn, ctx := info[cmdid].fn, info[cmdid].ctx;
      ran := ran + Leaving(Table(), cmdid);
      info[cmdid] := Info(Special, CtxCompleted, info[cmdid].timeout);
      cmdidData[cmdid] := false;
      owner := owner[cmdid := None];
    }

    /** cancel_cmdid; the ghost argument says whether the caller goes on to call the function returned. */
    method CancelCmdid(cmdid: nat, ghost run: bool) returns (fn: Fn, ctx: Ctx)
      requires Valid() && cmdid < qDepth
      modifies this`owner, this`ran, this`aborted, info
      ensures Valid()
      ensures Table() == Cancel(old(Table()), cmdid, run)
      ensures forall m :: old(Represents(m)) && Allowed(m, Abort(cmdid)) && !run ==> Represents(Next(m, Abort(cmdid)))
      ensures (fn, ctx) == old((info[cmdid].fn, info[cmdid].ctx))
      ensures info[..] == old(info[..])[cmdid := Info(Special, CtxCancelled, old(info[cmdid].timeout))]
      ensures DroppedBy(old(Table()), OpAbort(cmdid)) == [Call(fn, ctx)]
    {
      fn, ctx := info[cmdid].fn, info[cmdid].ctx;
      if run {
        ran := ran + Leaving(Table(), cmdid);
      } else {
        aborted := aborted + Leaving(Table(), cmdid);
      }
      info[cmdid] := Info(Special, CtxCancelled, info[cmdid].timeout);
      owner := owner[cmdid := None];
    }

    /** nvme_timeout_ios; calls lists the functions it called, with their contexts. */
    method TimeoutIos(now: int) returns (calls: seq<Call>)
      requires Valid()
      modifies this`owner, this`ran, this`aborted, info
      ensures Valid()
      ensures Table() == TimeoutFrom(old(Table()), now, 0)
      // the late identifiers keep their bits and get the cancelled marker; nothing else changes
      ensures forall id :: 0 <= id < qDepth ==>
        info[id] == if old(Late(Table(), now, id)) then Info(Special, CtxCancelled, old(info[id].timeout))
                    else old(info[id])
      // what was registered at them is called, the lowest identifier first
      ensures calls == CalledBy(old(Table()), OpTimeout(now))
      ensures calls == CallsAt(old(Table()), LateFrom(old(Table()), now, 0))
      ensures forall m :: old(Represents(m)) ==> Represents(Next(m, Expire(now)))
    {
      var depth := qDepth - 1;
      calls := [];
      var cmdid := 0;
      while cmdid < depth
        invariant 0 <= cmdid <= depth && Valid()
        invariant TimeoutFrom(Table(), now, cmdid) == TimeoutFrom(old(Table()), now, 0)
        invariant calls + TimeoutCalls(Table(), now, cmdid) == TimeoutCalls(old(Table()), now, 0)
      {
        if cmdidData[cmdid] && now > info[cmdid].timeout {
          var fn, ctx := CancelCmdid(cmdid, true);
          calls := calls + [Call(fn, ctx)];
        }
        cmdid := cmdid + 1;
      }
      TimeoutCallsTheLate(old(Table()), now, 0);
      hide TimeoutFrom, TimeoutCalls, LateFrom, Late;
      forall id | 0 <= id < qDepth
        ensures Table().info[id] == if old(Late(Table(), now, id)) then
            Info(Special, CtxCancelled, old(info[id].timeout)) else old(info[id])
      {
        TimeoutCancelsTheLate(old(Table()), now, 0, id);
      }
    }

    /** nvme_submit_cmd: copy the command to the tail, advance it, ring the doorbell. */
    method SubmitCmd(cmd: Cmd)
      requires Valid()
      modifies this`sqTail, this`doorbell, sqCmds
      ensures Valid()
      ensures sqCmds[..] == old(sqCmds[..])[old(sqTail) := cmd]
      ensures sqTail == NextSlot(old(sqTail), qDepth)
      ensures forall m :: old(Represents(m)) && Allowed(m, Submit(cmd)) ==> Represents(Next(m, Submit(cmd)))
    {
      hide Tail, Next;
      var tail := sqTail;
      sqCmds[tail] := cmd;
      tail := tail + 1;
      if tail == qDepth {
        tail := 0;
      }
      doorbell := tail;
      sqTail := tail;
      forall m | old(Represents(m)) && Allowed(m, Submit(cmd)) ensures Represents(Next(m, Submit(cmd))) {
        SubmitMovesTail(m, cmd);
      }
    }

    /** nvme_submit_flush. */
    method SubmitFlush(ns: nat, cmdid: nat)
      requires Valid()
      modifies this`sqTail, this`doorbell, sqCmds
      ensures Valid()
      ensures sqCmds[..] == old(sqCmds[..])[old(sqTail) := Cmd(cmdid, Flush(ns))]
      ensures sqTail == NextSlot(old(sqTail), qDepth)
      ensures var e := Submit(Cmd(cmdid, Flush(ns)));
        forall m :: old(Represents(m)) && Allowed(m, e) ==> Represents(Next(m, e))
    {
      hide Tail, Next;
      sqCmds[sqTail] := Cmd(cmdid, Flush(ns));
      sqTail := sqTail + 1;
      if sqTail == qDepth {
        sqTail := 0;
      }
      doorbell := sqTail;
      forall m | old(Represents(m)) && Allowed(m, Submit(Cmd(cmdid, Flush(ns))))
        ensures Represents(Next(m, Submit(Cmd(cmdid, Flush(ns)))))
      {
        SubmitMovesTail(m, Cmd(cmdid, Flush(ns)));
      }
    }

    /** nvme_submit_flush_data: None is -EBUSY, and then nothing has changed. */
    method SubmitFlushData(ns: nat, timeout: int) returns (r: Option<nat>)
      requires Valid()
      modifies this`sqTail, this`doorbell, this`owner, this`registered, cmdidData, info, sqCmds
      ensures Valid()
      ensures (Table(), r) == Alloc(old(Table()), Special, CtxFlush, timeout)
      ensures r.None? ==> Table() == old(Table()) && sqCmds[..] == old(sqCmds[..]) && sqTail == old(sqTail)
      ensures r.Some? ==>
        && sqCmds[..] == old(sqCmds[..])[old(sqTail) := Cmd(r.value, Flush(ns))]
        && sqTail == NextSlot(old(sqTail), qDepth)
      // the submission is one the ring machine allows: the identifier is this submitter's own
      ensures r.Some? ==> forall m :: old(Represents(m)) ==>
        var owned := Next(m, Allocate(Special, CtxFlush, timeout));
        var e := Submit(Cmd(r.value, Flush(ns)));
        Allowed(owned, e) && Represents(Next(owned, e))
    {
      assert var (t, id) := Alloc(Table(), Special, CtxFlush, timeout); id.None? ==> t == Table();
      hide Next, Alloc;
      r := AllocCmdid(CtxFlush, Special, timeout);
      if r.None? {
        return;
      }
      label gotId:
      SubmitFlush(ns, r.value);
      forall m | old(Represents(m))
        ensures var owned := Next(m, Allocate(Special, CtxFlush, timeout));
          var e := Submit(Cmd(r.value, Flush(ns)));
          Allowed(owned, e) && Represents(Next(owned, e))
      {
        AllocatedIsOwned(m, Special, CtxFlush, timeout, Cmd(r.value, Flush(ns)));
        assert old@gotId(Represents(Next(m, Allocate(Special, CtxFlush, timeout))));
      }
    }
  }
}
