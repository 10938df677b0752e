/**
  The completion ring of kernel/nvme.c: the controller posts entries tagged with a phase bit that it inverts
  on every lap (section 4.6 of NVM Express 1.2), and nvme_process_cq drains them without ever reading a
  count. The controller may post between any two reads of the host.
*/
module NvmeCompletions {
  import opened Common
  import opened NvmeCommands
  import opened NvmeIds

  /** What a completion says: the command it belongs to and how far the controller has read submissions. */
  datatype Post = Post(commandId: nat, sqHead: nat)

  /** A completion queue entry: bit 0 of its status is the phase. */
  datatype Cqe = Cqe(post: Post, phase: bool)

  /** The phase of the k-th entry ever posted: true (1) on the first lap. */
  function Phase(k: nat, depth: nat): bool
    requires depth > 0
  {
    (k / depth) % 2 == 0
  }

  /** Slot and phase of the entry after entry k. */
  lemma {:induction false} NextEntry(k: nat, depth: nat)
    requires depth > 0
    ensures (k + 1) % depth == NextSlot(k % depth, depth)
    ensures Phase(k + 1, depth) == if NextSlot(k % depth, depth) == 0 then !Phase(k, depth) else Phase(k, depth)
  {
    NextSlotIs(k, depth);
  }

  /** The ring after `posted`: the last lap's worth of entries with their phases, and phase 0 elsewhere. */
  ghost predicate Holds(ring: seq<Cqe>, posted: seq<Post>) {
    && |ring| > 0
    && (forall k :: |posted| - |ring| <= k < |posted| && 0 <= k ==>
          ring[k % |ring|] == Cqe(posted[k], Phase(k, |ring|)))
    && (forall s :: |posted| <= s < |ring| ==> !ring[s].phase)
  }

  lemma {:induction false} PostKeeps(ring: seq<Cqe>, posted: seq<Post>, p: Post)
    requires Holds(ring, posted)
    ensures Holds(ring[|posted| % |ring| := Cqe(p, Phase(|posted|, |ring|))], posted + [p])
  {
    var n := |ring|;
    var ring' := ring[|posted| % n := Cqe(p, Phase(|posted|, n))];
    var posted' := posted + [p];
    forall k | |posted'| - n <= k < |posted'| && 0 <= k
      ensures ring'[k % n] == Cqe(posted'[k], Phase(k, n))
    {
      if k < |posted| && k % n == |posted| % n {
        SameSlotApart(k, |posted|, n);
      }
    }
    if |posted| < n {
      DivModUnique(|posted|, n, 0, |posted|);
    }
  }

  /** The phase bit tells the host exactly whether entry c has been posted, when the controller is less than a
      lap ahead of c. */
  lemma {:induction false} PhaseTells(ring: seq<Cqe>, posted: seq<Post>, c: nat)
    requires Holds(ring, posted) && c <= |posted| < c + |ring|
    ensures ring[c % |ring|].phase == Phase(c, |ring|) <==> c < |posted|
    ensures c < |posted| ==> ring[c % |ring|].post == posted[c]
  {
    var n := |ring|;
    if c == |posted| {
      if c < n {
        DivModUnique(c, n, 0, c);
      } else {
        FullTurn(c - n, n);
        assert ring[(c - n) % n] == Cqe(posted[c - n], Phase(c - n, n));
      }
    }
  }

  /** The host sees the same head and phase again only if it has consumed nothing. */
  lemma {:induction false} HeadAndPhaseMove(c: nat, d: nat, depth: nat)
    requires c <= d < c + depth
    ensures c % depth == d % depth && Phase(c, depth) == Phase(d, depth) <==> c == d
  {
    if c < d && c % depth == d % depth {
      SameSlotApart(c, d, depth);
    }
  }

  /** What the controller manages to post of the entries it has ready when `free` more fit. */
  function Fitting(ready: seq<Post>, free: nat): (r: seq<Post>)
    ensures |r| <= free
  {
    if |ready| <= free then ready else ready[..free]
  }

  /** "The next slot is the head" is the full condition. */
  lemma {:induction false} FullIffNextIsHead(tail: nat, head: nat, depth: nat)
    requires depth > 0 && head <= tail < head + depth
    ensures (tail + 1) % depth == head % depth <==> tail + 1 == head + depth
  {
    if tail + 1 == head + depth {
      FullTurn(head, depth);
    } else if (tail + 1) % depth == head % depth {
      SameSlotApart(head, tail + 1, depth);
    }
  }

  /** Posting in two goes is posting all of it in one. */
  lemma {:induction false} PostedTwice(posted: seq<Post>, a: seq<Post>, b: seq<Post>, free: nat)
    ensures posted + Fitting(a, free) + Fitting(b, free - |Fitting(a, free)|) == posted + Fitting(a + b, free)
  {
    assert Fitting(a, free) + Fitting(b, free - |Fitting(a, free)|) == Fitting(a + b, free);
  }

  function Concat(batches: seq<seq<Post>>): seq<Post>
    decreases |batches|
  {
    if batches == [] then [] else Concat(batches[..|batches| - 1]) + batches[|batches| - 1]
  }

  /** The first n batches, or all. */
  function Upto(batches: seq<seq<Post>>, n: nat): seq<seq<Post>> {
    if n <= |batches| then batches[..n] else batches
  }

  function Batch(batches: seq<seq<Post>>, n: nat): seq<Post> {
    if n < |batches| then batches[n] else []
  }

  lemma {:induction false} UptoNext(batches: seq<seq<Post>>, n: nat)
    ensures Concat(Upto(batches, n + 1)) == Concat(Upto(batches, n)) + Batch(batches, n)
  {
    if n < |batches| {
      assert batches[..n + 1][..n] == batches[..n];
    } else {
      assert Upto(batches, n) == batches;
      assert Concat(batches) + [] == Concat(batches);
    }
  }

  lemma {:induction false} NothingYet(batches: seq<seq<Post>>, free: nat)
    ensures Fitting(Concat(Upto(batches, 0)), free) == []
  {
  }

  lemma {:induction false} SliceGrows(s: seq<Post>, t: seq<Post>, i: nat, j: nat)
    requires i <= j <= |s| <= |t| && s == t[..|s|]
    ensures s[i..j] == t[i..j]
    ensures j < |t| ==> t[i..j + 1] == t[i..j] + [t[j]]
  {
  }

  /** The operations on the identifier table that processing the completions amounts to. */
  function Completions(ps: seq<Post>): seq<Op> {
    seq(|ps|, i requires 0 <= i < |ps| => OpComplete(ps[i].commandId))
  }

  lemma {:induction false} CompletionsNext(t: Ids, ps: seq<Post>, p: Post)
    requires Sized(t)
    ensures ApplyAll(t, Completions([])) == t && CalledIn(t, Completions([])) == []
    ensures var u := ApplyAll(t, Completions(ps));
      && ApplyAll(t, Completions(ps + [p])) == Complete(u, p.commandId)
      && CalledIn(t, Completions(ps + [p])) == CalledIn(t, Completions(ps)) + CalledBy(u, OpComplete(p.commandId))
  {
    assert Completions(ps + [p]) == Completions(ps) + [OpComplete(p.commandId)];
    assert Completions(ps + [p])[..|ps|] == Completions(ps);
  }

  /** Lines 646 and 647: the completion p after those in `done`, which started with the table t. */
  method FreeAndCall(ids: NvmeQueue, p: Post, calls: seq<Call>, ghost t: Ids, ghost done: seq<Post>)
    returns (calls': seq<Call>)
    requires ids.Valid() && Sized(t)
    requires ids.Table() == ApplyAll(t, Completions(done)) && calls == CalledIn(t, Completions(done))
    modifies ids, ids.cmdidData, ids.info
    ensures ids.Valid()
    ensures ids.Table() == ApplyAll(t, Completions(done + [p])) && calls' == CalledIn(t, Completions(done + [p]))
  {
    CompletionsNext(t, done, p);
    hide ApplyAll, CalledIn, Completions, CalledBy;
    var fn, ctx := ids.FreeCmdid(p.commandId);
    calls' := calls + [Call(fn, ctx)];
  }

  class CompletionQueue {
    const qDepth: nat
    const cqes: array<Cqe>
    var cqHead: nat
    var cqPhase: bool
    var sqHead: nat
    var headDoorbell: nat
    // the controller's registers
    var ctlTail: nat
    var ctlPhase: bool
    // everything posted, how much of it the host has consumed, and how much it has acknowledged
    ghost var posted: seq<Post>
    ghost var consumed: nat
    ghost var acked: nat

    /** The ring and the controller, whatever the host has consumed meanwhile. */
    ghost predicate RingValid()
      reads this, cqes
      ensures RingValid() ==> qDepth > 0 && acked <= consumed <= |posted| < acked + qDepth
    {
      && qDepth == cqes.Length && qDepth > 0
      && Holds(cqes[..], posted)
      && ctlTail == |posted| % qDepth && ctlPhase == Phase(|posted|, qDepth)
      && headDoorbell == acked % qDepth
      && acked <= consumed <= |posted| < acked + qDepth
    }

    /** The host's position: it is about to look at entry c. */
    ghost predicate LooksAt(head: nat, phase: bool, c: nat)
    {
      qDepth > 0 && head == c % qDepth && phase == Phase(c, qDepth)
    }

    ghost predicate Valid()
      reads this, cqes
    {
      RingValid() && acked == consumed && LooksAt(cqHead, cqPhase, consumed)
    }

    constructor (depth: nat)
      requires depth > 0
      ensures Valid() && qDepth == depth && posted == [] && consumed == acked == 0 && fresh(cqes)
    {
      qDepth := depth;
      cqes := new Cqe[depth](_ => Cqe(Post(0, 0), false));
      cqHead, cqPhase, sqHead, headDoorbell := 0, true, 0, 0;
      ctlTail, ctlPhase := 0, true;
      posted, consumed, acked := [], 0, 0;
      new;
      DivModUnique(0, depth, 0, 0);
    }

    /** The controller posts one completion if the queue is not full: the slot after its tail must not be the
        one the head doorbell points to. */
    method ControllerPost(p: Post) returns (done: bool)
      requires RingValid()
      modifies this`ctlTail, this`ctlPhase, this`posted, cqes
      ensures RingValid()
      ensures done == (old(|posted|) + 1 < acked + qDepth)
      ensures posted == if done then old(posted) + [p] else old(posted)
    {
      hide Phase, Holds;
      NextEntry(|posted|, qDepth);
      FullIffNextIsHead(|posted|, acked, qDepth);
      var next := if ctlTail + 1 == qDepth then 0 else ctlTail + 1;
      if next == headDoorbell {
        return false;
      }
      PostKeeps(cqes[..], posted, p);
      cqes[ctlTail] := Cqe(p, ctlPhase);
      ctlTail := next;
      if next == 0 {
        ctlPhase := !ctlPhase;
      }
      posted := posted + [p];
      return true;
    }

    /** The controller posts as much of `ready` as fits. */
    method ControllerPosts(ready: seq<Post>)
      requires RingValid()
      modifies this`ctlTail, this`ctlPhase, this`posted, cqes
      ensures RingValid()
      ensures posted == old(posted) + Fitting(ready, acked + qDepth - 1 - old(|posted|))
    {
      hide RingValid;
      var i := 0;
      while i < |ready|
        invariant 0 <= i <= |ready| && RingValid()
        invariant posted == old(posted) + ready[..i]
      {
        var done := ControllerPost(ready[i]);
        if !done {
          return;
        }
        i := i + 1;
      }
    }

    /** One turn of the host's loop up to line 644: read the entry at head and, if its phase says that it is new,
        step over it. */
    method Take(head: nat, phase: bool) returns (found: bool, p: Post, head': nat, phase': bool)
      requires RingValid() && LooksAt(head, phase, consumed)
      modifies this`sqHead, this`consumed
      ensures RingValid() && LooksAt(head', phase', consumed)
      ensures found <==> old(consumed) < |posted|
      ensures found ==> p == posted[old(consumed)] && consumed == old(consumed) + 1 && sqHead == p.sqHead
      ensures !found ==> consumed == old(consumed) && sqHead == old(sqHead)
    {
      hide Phase, Holds;
      PhaseTells(cqes[..], posted, consumed);
      NextEntry(consumed, qDepth);
      var cqe := cqes[head];
      p, head', phase' := cqe.post, head, phase;
      if cqe.phase != phase {
        return false, p, head', phase';
      }
      sqHead := cqe.post.sqHead;
      head' := head' + 1;
      if head' == qDepth {
        head' := 0;
        phase' := !phase';
      }
      consumed := consumed + 1;
      found := true;
    }

    /** The controller posts what it has ready and fits, then the host takes its turn. */
    method PostThenTake(ready: seq<Post>, head: nat, phase: bool)
      returns (found: bool, p: Post, head': nat, phase': bool)
      requires RingValid() && LooksAt(head, phase, consumed)
      modifies this`ctlTail, this`ctlPhase, this`posted, this`sqHead, this`consumed, cqes
      ensures RingValid() && LooksAt(head', phase', consumed)
      ensures posted == old(posted) + Fitting(ready, acked + qDepth - 1 - old(|posted|))
      ensures found <==> old(consumed) < |posted|
      ensures consumed == old(consumed) + if found then 1 else 0
      ensures posted[acked..consumed] == old(posted[acked..consumed]) + if found then [p] else []
      ensures sqHead == if found then p.sqHead else old(sqHead)
    {
      hide RingValid, LooksAt, Fitting;
      ControllerPosts(ready);
      SliceGrows(old(posted), posted, acked, consumed);
      found, p, head', phase' := Take(head, phase);
    }

    /** The doorbell: the host acknowledges everything it consumed. */
    method Acknowledge(head: nat, phase: bool)
      requires RingValid() && LooksAt(head, phase, consumed)
      modifies this`headDoorbell, this`acked, this`cqHead, this`cqPhase
      ensures Valid() && headDoorbell == cqHead == head && acked == consumed
    {
      headDoorbell := head;
      acked := consumed;
      cqHead := head;
      cqPhase := phase;
    }

    /** Nothing was consumed exactly when head and phase are back where they were. */
    lemma UnmovedIffNone(head: nat, phase: bool)
      requires RingValid() && LooksAt(cqHead, cqPhase, acked) && LooksAt(head, phase, consumed)
      ensures head == cqHead && phase == cqPhase <==> consumed == acked
    {
      HeadAndPhaseMove(acked, consumed, qDepth);
    }

    /**
      nvme_process_cq. env[i] is what the controller has ready just before the host's i-th read of the ring;
      each entry found is completed in the identifier table, as free_cmdid does.
    */
    method ProcessCq(ids: NvmeQueue, env: seq<seq<Post>>) 
      returns (handled: bool, processed: seq<Post>, calls: seq<Call>)
      requires Valid() && ids.Valid()
      modifies this, cqes, ids, ids.cmdidData, ids.info
      ensures Valid() && ids.Valid()
      // everything posted before the last read was consumed: once, in posting order, within a lap
      ensures posted == old(posted) + Fitting(Concat(Upto(env, |processed| + 1)), old(acked + qDepth - 1 - |posted|))
      ensures consumed == |posted| && processed == posted[old(consumed)..]
      ensures |processed| <= qDepth - 1
      ensures handled <==> processed != []
      // each is completed in the table, and what was registered for it is called
      ensures ids.Table() == ApplyAll(old(ids.Table()), Completions(processed))
      ensures calls == CalledIn(old(ids.Table()), Completions(processed))
      ensures headDoorbell == if handled then cqHead else old(headDoorbell)
      ensures sqHead == if processed == [] then old(sqHead) else processed[|processed| - 1].sqHead
    {
      hide RingValid, LooksAt, Complete, Completions, ApplyAll, CalledIn, CalledBy;
      hide Fitting, Concat, Upto, Batch, NvmeQueue.Represents;
      NothingYet(env, acked + qDepth - 1 - |posted|);
      var head, phase := cqHead, cqPhase;
      processed, calls := [], [];
      CompletionsNext(ids.Table(), [], Post(0, 0));
      ghost var free := acked + qDepth - 1 - |posted|;
      while true
        invariant RingValid() && ids.Valid() && LooksAt(head, phase, consumed)
        invariant acked == old(acked) == old(consumed) && consumed == acked + |processed|
        invariant cqHead == old(cqHead) && cqPhase == old(cqPhase) && headDoorbell == old(headDoorbell)
        invariant posted == old(posted) + Fitting(Concat(Upto(env, |processed|)), free)
        invariant processed == posted[acked..consumed]
        invariant ids.Table() == ApplyAll(old(ids.Table()), Completions(processed))
        invariant calls == CalledIn(old(ids.Table()), Completions(processed))
        invariant sqHead == if processed == [] then old(sqHead) else processed[|processed| - 1].sqHead
        decreases acked + qDepth - consumed
      {
        UptoNext(env, |processed|);
        PostedTwice(old(posted), Concat(Upto(env, |processed|)), Batch(env, |processed|), free);
        var found, p;
        found, p, head, phase := PostThenTake(Batch(env, |processed|), head, phase);
        if !found {
          break;
        }
        calls := FreeAndCall(ids, p, calls, old(ids.Table()), processed);
        processed := processed + [p];
      }
      assert posted[acked..consumed] == posted[acked..];
      UnmovedIffNone(head, phase);
      if head == cqHead && phase == cqPhase {
        return false, processed, calls;
      }
      Acknowledge(head, phase);
      return true, processed, calls;
    }
  }
}
