/**
  The submission ring of kernel/nvme.c as a state machine: submitters that own their identifiers, the host's tail, and
  a controller that reads entries up to the tail doorbell.
*/
module NvmeRing {
  import opened Common
  import opened NvmeIds

  datatype Body = Flush(nsid: nat) | Other(bits: nat)

  /** A 64-byte command: its command_id and the rest. */
  datatype Cmd = Cmd(id: nat, body: Body)

  /** Where the command of an identifier is. */
  datatype Stage = Idle | Owned | Queued | AtDevice

  /** The queue and the controller: ring is sq_cmds, submitted and fetched are all commands that were written
      to the ring and all that the controller has read from it. */
  datatype Machine = Machine(ids: Ids, ring: seq<Cmd>, submitted: seq<Cmd>, fetched: seq<Cmd>, stage: seq<Stage>)

  datatype Event =
    | Allocate(fn: Fn, ctx: Ctx, timeout: int)   // alloc_cmdid by a submitter
    | Submit(cmd: Cmd)                           // by the owner of the identifier
    | Fetch                                      // the controller reads the next entry
    | Finish(id: nat)                            // the completion of a fetched command is processed
    | Expire(now: int)                           // nvme_timeout_ios
    | Abort(id: nat)                             // nvme_abort_command

  function Tail(m: Machine): nat
    requires |m.ring| > 0
  {
    |m.submitted| % |m.ring|
  }

  /** The events of submitters that use identifiers they own, and of a controller that reads an entry only when
      the tail doorbell says there is one and completes only what it has read, once. */
  predicate Allowed(m: Machine, e: Event)
  {
    match e
    case Allocate(_, _, _) => true
    case Submit(cmd) => cmd.id < |m.stage| && m.stage[cmd.id].Owned?
    case Fetch => |m.ring| > 0 && |m.fetched| < |m.submitted| && m.ring[|m.fetched| % |m.ring|].id < |m.stage|
    case Finish(id) => id < |m.stage| && m.stage[id].AtDevice?
    case Expire(_) => true
    case Abort(id) => id < |m.stage| && !m.stage[id].Idle?
  }

  predicate Shaped(m: Machine) {
    Sized(m.ids) && |m.ring| == |m.stage| == |m.ids.bits|
  }

  function Next(m: Machine, e: Event): (r: Machine)
    requires Shaped(m) && Allowed(m, e)
    ensures Shaped(r) && |r.ring| == |m.ring|
  {
    match e
    case Allocate(fn, ctx, timeout) =>
      var (ids, id) := Alloc(m.ids, fn, ctx, timeout);
      m.(ids := ids, stage := if id.Some? then m.stage[id.value := Owned] else m.stage)
    case Submit(cmd) =>
      m.(ring := m.ring[Tail(m) := cmd], submitted := m.submitted + [cmd], stage := m.stage[cmd.id := Queued])
    case Fetch =>
      var cmd := m.ring[|m.fetched| % |m.ring|];
      m.(fetched := m.fetched + [cmd], stage := m.stage[cmd.id := AtDevice])
    case Finish(id) => m.(ids := Complete(m.ids, id), stage := m.stage[id := Idle])
    case Expire(now) => m.(ids := TimeoutFrom(m.ids, now, 0))
    case Abort(id) => m.(ids := Cancel(m.ids, id, false))
  }

  /** A run; an event that is not allowed does not happen. */
  function Run(m: Machine, events: seq<Event>): (r: Machine)
    requires Shaped(m)
    ensures Shaped(r) && |r.ring| == |m.ring|
    decreases |events|
  {
    if events == [] then m
    else
      var p := Run(m, events[..|events| - 1]);
      if Allowed(p, events[|events| - 1]) then Next(p, events[|events| - 1]) else p
  }

  /** A new queue; what the ring contains does not matter. */
  ghost predicate Start(depth: nat, m: Machine) {
    && depth > 0 && m.ids == Fresh(depth) && |m.ring| == depth
    && m.submitted == [] && m.fetched == [] && m.stage == seq(depth, _ => Idle)
  }

  ghost predicate RingInv(m: Machine) {
    && Shaped(m)
    && !m.ids.bits[|m.stage| - 1]
    && (forall id :: 0 <= id < |m.stage| ==> (m.ids.bits[id] <==> !m.stage[id].Idle?))
    && m.fetched <= m.submitted
    && (forall k :: |m.fetched| <= k < |m.submitted| ==>
          && m.ring[k % |m.ring|] == m.submitted[k]
          && m.submitted[k].id < |m.stage| && m.stage[m.submitted[k].id].Queued?)
    && (forall j, k :: |m.fetched| <= j < k < |m.submitted| ==> m.submitted[j].id != m.submitted[k].id)
  }

  function UpTo(n: nat): (r: set<nat>)
    ensures |r| == n && forall id: nat :: id in r <==> id < n
  {
    if n == 0 then {} else UpTo(n - 1) + {n - 1}
  }

  function InUse(bits: seq<bool>): (r: set<nat>)
    ensures forall id: nat :: id in r <==> id < |bits| && bits[id]
    decreases |bits|
  {
    if bits == [] then {}
    else InUse(bits[..|bits| - 1]) + (if bits[|bits| - 1] then {|bits| - 1} else {})
  }

  function IdSet(s: seq<Cmd>): set<nat>
    decreases |s|
  {
    if s == [] then {} else IdSet(s[..|s| - 1]) + {s[|s| - 1].id}
  }

  lemma {:induction false} DistinctCount(s: seq<Cmd>)
    requires forall j, k :: 0 <= j < k < |s| ==> s[j].id != s[k].id
    ensures |IdSet(s)| == |s|
    ensures forall id :: id in IdSet(s) ==> exists k :: 0 <= k < |s| && s[k].id == id
    decreases |s|
  {
    if s != [] {
      DistinctCount(s[..|s| - 1]);
      assert s[|s| - 1] in s;
    }
  }

  lemma {:induction false} SubsetCount(a: set<nat>, b: set<nat>)
    requires a <= b
    ensures |a| <= |b|
  {
    assert b == a + (b - a);
  }

  /** Unread entries <= identifiers in use <= q_depth - 1. */
  lemma {:induction false} RingNeverFull(m: Machine)
    requires RingInv(m)
    ensures |m.submitted| - |m.fetched| <= |InUse(m.ids.bits)| <= |m.ring| - 1
  {
    var unread := m.submitted[|m.fetched|..];
    DistinctCount(unread);
    SubsetCount(IdSet(unread), InUse(m.ids.bits));
    SubsetCount(InUse(m.ids.bits), UpTo(|m.ring| - 1));
  }

  /** A write at position n leaves the other positions of the last ring's length alone. */
  lemma {:induction false} WriteElsewhere(ring: seq<Cmd>, k: nat, n: nat, cmd: Cmd)
    requires k < n < k + |ring|
    ensures ring[n % |ring| := cmd][k % |ring|] == ring[k % |ring|]
  {
    if k % |ring| == n % |ring| {
      SameSlotApart(k, n, |ring|);
    }
  }

  lemma {:induction false} SubmitKeepsUnread(m: Machine, cmd: Cmd)
    requires RingInv(m) && Allowed(m, Submit(cmd))
    ensures var r := Next(m, Submit(cmd));
      forall k :: |r.fetched| <= k < |r.submitted| ==> r.ring[k % |r.ring|] == r.submitted[k]
  {
    var r := Next(m, Submit(cmd));
    RingNeverFull(m);
    forall k | |r.fetched| <= k < |r.submitted|
      ensures r.ring[k % |r.ring|] == r.submitted[k]
    {
      if k < |m.submitted| {
        WriteElsewhere(m.ring, k, |m.submitted|, cmd);
      }
    }
  }

  lemma {:induction false} SubmitKeepsRing(m: Machine, cmd: Cmd)
    requires RingInv(m) && Allowed(m, Submit(cmd))
    ensures RingInv(Next(m, Submit(cmd)))
  {
    SubmitKeepsUnread(m, cmd);
    hide Tail;
  }

  lemma {:induction false} NextKeepsRing(m: Machine, e: Event)
    requires RingInv(m) && Allowed(m, e)
    ensures RingInv(Next(m, e))
  {
    match e
    case Allocate(fn, ctx, timeout) =>
    case Submit(cmd) => SubmitKeepsRing(m, cmd);
    case Fetch =>
      var cmd := m.ring[|m.fetched| % |m.ring|];
      assert cmd == m.submitted[|m.fetched|];
    case Finish(id) =>
    case Expire(now) => TimeoutCancelsTheLate(m.ids, now, 0, 0);
    case Abort(id) =>
  }

  lemma {:induction false} RunKeepsRing(depth: nat, m: Machine, events: seq<Event>)
    requires Start(depth, m)
    ensures RingInv(Run(m, events))
    decreases |events|
  {
    if events != [] {
      RunKeepsRing(depth, m, events[..|events| - 1]);
      var p := Run(m, events[..|events| - 1]);
      if Allowed(p, events[|events| - 1]) {
        NextKeepsRing(p, events[|events| - 1]);
      }
    }
  }

  /** In every run the entries not read yet are at most the identifiers in use, these at most q_depth - 1, and
      the controller reads the commands exactly as submitted and in order: none is overwritten before it. */
  lemma {:induction false} SubmissionsArriveInOrder(depth: nat, m: Machine, events: seq<Event>)
    requires Start(depth, m)
    ensures var r := Run(m, events);
      && r.fetched <= r.submitted
      && |r.submitted| - |r.fetched| <= |InUse(r.ids.bits)| <= depth - 1
      && (forall k :: |r.fetched| <= k < |r.submitted| ==> r.ring[k % depth] == r.submitted[k])
  {
    RunKeepsRing(depth, m, events);
    RingNeverFull(Run(m, events));
  }

  /** A submitter that owns an identifier finds room. */
  lemma {:induction false} RoomForOne(m: Machine, cmd: Cmd)
    requires RingInv(m) && Allowed(m, Submit(cmd))
    ensures |m.fetched| <= |m.submitted| && |m.submitted| + 1 < |m.fetched| + |m.ring|
  {
    SubmitKeepsRing(m, cmd);
    RingNeverFull(Next(m, Submit(cmd)));
    hide RingInv;
  }

  /** Positions less than a ring apart have different slots. */
  lemma {:induction false} SlotsApart(a: nat, b: nat, n: nat)
    requires a <= b && b + 1 < a + n
    ensures forall k :: a <= k < b ==> k % n != b % n
    ensures (b + 1) % n != a % n
  {
    forall k | a <= k < b ensures k % n != b % n {
      if k % n == b % n {
        SameSlotApart(k, b, n);
      }
    }
    if (b + 1) % n == a % n {
      SameSlotApart(a, b + 1, n);
    }
  }

  /** When a submitter writes its command, the slot at the tail holds nothing the controller still has to read,
      and moving the tail does not make the ring look empty. */
  lemma {:induction false} TailNeverLaps(depth: nat, m: Machine, events: seq<Event>, cmd: Cmd)
    requires Start(depth, m) && Allowed(Run(m, events), Submit(cmd))
    ensures var r := Run(m, events);
      && (forall k :: |r.fetched| <= k < |r.submitted| ==> k % depth != Tail(r))
      && (|r.submitted| + 1) % depth != |r.fetched| % depth
  {
    RunKeepsRing(depth, m, events);
    var r := Run(m, events);
    RoomForOne(r, cmd);
    hide Run, Allowed, RingInv, Start;
    SlotsApart(|r.fetched|, |r.submitted|, depth);
  }

  lemma {:induction false} AllocateKeepsTail(m: Machine, fn: Fn, ctx: Ctx, timeout: int)
    requires Shaped(m)
    ensures var r := Next(m, Allocate(fn, ctx, timeout));
      r.ids == Alloc(m.ids, fn, ctx, timeout).0 && r.ring == m.ring && Tail(r) == Tail(m)
  {
  }

  /** Whoever was given an identifier by alloc_cmdid may submit a command with it. */
  lemma {:induction false} AllocatedIsOwned(m: Machine, fn: Fn, ctx: Ctx, timeout: int, cmd: Cmd)
    requires Shaped(m) && Alloc(m.ids, fn, ctx, timeout).1 == Some(cmd.id)
    ensures Allowed(Next(m, Allocate(fn, ctx, timeout)), Submit(cmd))
  {
  }

  lemma {:induction false} SubmitMovesTail(m: Machine, cmd: Cmd)
    requires Shaped(m) && Allowed(m, Submit(cmd))
    ensures var r := Next(m, Submit(cmd));
      Tail(r) == NextSlot(Tail(m), |m.ring|) && r.ring == m.ring[Tail(m) := cmd] && r.ids == m.ids
  {
    NextSlotIs(|m.submitted|, |m.ring|);
  }
}
