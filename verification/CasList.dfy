/**
  The linked list of blockfreelinkedlist.c: insertfirst and insertorder by any number of threads, as interleaved steps
  with one access to shared memory each.

  Node i is the node that call i inserts, so a node is linked exactly when call i has returned. Values never change.
*/
module CasList {

  /** A pointer to a node. */
  type Ref = int
  const NULL: Ref := -1

  datatype Kind = First | Ordered

  /**
    Where a call is. Start to Swap are the loops that replace the first node; Enter to SwapInner are the loop that
    inserts after it. Crash is a null pointer followed.
  */
  datatype Pc = Start | SecondTest | Recheck | RecheckValue | Link | Swap
              | Enter | EnterNext | ReadPrev | Walk | SwapInner | Done | Crash

  datatype Call = Call(kind: Kind, value: int, pc: Pc, prev: Ref, ptr: Ref)

  datatype State = State(head: Ref, next: seq<Ref>, calls: seq<Call>)

  predicate WellFormed(s: State) {
    && |s.next| == |s.calls|
    && NULL <= s.head < |s.calls|
    && (forall i :: 0 <= i < |s.next| ==> NULL <= s.next[i] < |s.calls|)
    && (forall i :: 0 <= i < |s.calls| ==> NULL <= s.calls[i].prev < |s.calls| && NULL <= s.calls[i].ptr < |s.calls|)
  }

  predicate InBounds(s: State, r: Ref) {
    NULL <= r < |s.calls|
  }

  /** The same calls with the same values. */
  predicate SameValues(s: State, t: State) {
    && |t.calls| == |s.calls|
    && forall i :: 0 <= i < |s.calls| ==>
         t.calls[i].value == s.calls[i].value && t.calls[i].kind == s.calls[i].kind
  }

  /** Call i gets a new record. */
  function Put(s: State, i: nat, c: Call): (t: State)
    requires WellFormed(s) && i < |s.calls| && InBounds(s, c.prev) && InBounds(s, c.ptr)
    ensures WellFormed(t) && |t.calls| == |s.calls|
    ensures c.value == s.calls[i].value && c.kind == s.calls[i].kind ==> SameValues(s, t)
  {
    s.(calls := s.calls[i := c])
  }

  function At(s: State, i: nat, pc: Pc): (t: State)
    requires WellFormed(s) && i < |s.calls|
    ensures WellFormed(t) && |t.calls| == |s.calls| && SameValues(s, t)
  {
    Put(s, i, s.calls[i].(pc := pc))
  }

  /** A write to the next field of a node. */
  function SetNext(s: State, i: Ref, r: Ref): (t: State)
    requires WellFormed(s) && 0 <= i < |s.calls| && InBounds(s, r)
    ensures WellFormed(t) && |t.calls| == |s.calls|
  {
    s.(next := s.next[i := r])
  }

  function SetHead(s: State, r: Ref): (t: State)
    requires WellFormed(s) && InBounds(s, r)
    ensures WellFormed(t) && |t.calls| == |s.calls|
  {
    s.(head := r)
  }

  /** One step of call i. With `once`, lines 68 and 72 use one read of the head. */
  function Step(s: State, i: nat, once: bool): (t: State)
    requires WellFormed(s)
    ensures WellFormed(t) && |t.calls| == |s.calls|
  {
    if i >= |s.calls| then s else
    var c := s.calls[i];
    match c.pc
    case Start =>
      if c.kind == First then At(SetNext(s, i, s.head), i, Swap)
      else At(s, i, if s.head == NULL then Recheck else SecondTest)
    case SecondTest =>
      if s.head == NULL then At(s, i, Crash)
      else At(s, i, if s.calls[s.head].value > c.value then Recheck else Enter)
    case Recheck =>
      if s.head == NULL then (if once then At(SetNext(s, i, s.head), i, Swap) else At(s, i, Link))
      else if once then
        (if s.calls[s.head].value < c.value then At(s, i, Enter) else At(SetNext(s, i, s.head), i, Swap))
      else At(s, i, RecheckValue)
    case RecheckValue =>
      if s.head == NULL then At(s, i, Crash)
      else At(s, i, if s.calls[s.head].value < c.value then Enter else Link)
    case Link => At(SetNext(s, i, s.head), i, Swap)
    case Swap =>
      if s.head == s.next[i] then SetHead(At(s, i, Done), i)
      else At(s, i, if c.kind == First then Start else Recheck)
    case Enter =>
      Put(s, i, c.(pc := EnterNext, prev := s.head))
    case EnterNext =>
      if c.prev == NULL then At(s, i, Crash)
      else Put(s, i, c.(pc := ReadPrev, ptr := s.next[c.prev]))
    case ReadPrev =>
      Put(s, i, c.(pc := Walk, prev := s.head))
    case Walk =>
      if c.ptr != NULL && s.calls[c.ptr].value < c.value then
        Put(s, i, c.(prev := c.ptr, ptr := s.next[c.ptr]))
      else At(SetNext(s, i, c.ptr), i, SwapInner)
    case SwapInner =>
      if c.prev == NULL then At(s, i, Crash)
      else if s.next[c.prev] == c.ptr then At(SetNext(s, c.prev, i), i, Done)
      else At(s, i, Enter)
    case Done => s
    case Crash => s
  }

  function Run(s: State, schedule: seq<nat>, once: bool): (t: State)
    requires WellFormed(s)
    ensures WellFormed(t) && |t.calls| == |s.calls|
  {
    if schedule == [] then s
    else
      var u := Run(s, schedule[..|schedule| - 1], once);
      Step(u, schedule[|schedule| - 1], once)
  }

  predicate Returned(s: State, r: Ref) {
    0 <= r < |s.calls| && s.calls[r].pc == Done
  }

  /** After node c[k] comes node c[k + 1], and after the last null. */
  predicate Follows(s: State, c: seq<Ref>, k: nat)
    requires k < |c|
  {
    0 <= c[k] < |s.next| && s.next[c[k]] == if k + 1 < |c| then c[k + 1] else NULL
  }

  /** Following next from the head visits the nodes of c, each once, and they are the nodes of the calls that
      returned. */
  ghost predicate Linked(s: State, c: seq<Ref>) {
    && (forall k :: 0 <= k < |c| ==> Returned(s, c[k]))
    && (forall r :: Returned(s, r) ==> r in c)
    && (forall k, l :: 0 <= k < l < |c| ==> c[k] != c[l])
    && s.head == (if c == [] then NULL else c[0])
    && |s.next| == |s.calls|
    && (forall k :: 0 <= k < |c| ==> Follows(s, c, k))
  }

  /** What a call in progress holds: linked nodes or null. */
  predicate LocalsOk(s: State, i: nat)
    requires i < |s.calls| == |s.next|
  {
    var x := s.calls[i];
    match x.pc
    case SecondTest => s.head != NULL
    case RecheckValue => s.head != NULL
    case Enter => s.head != NULL
    case EnterNext => s.head != NULL && Returned(s, x.prev)
    case ReadPrev => s.head != NULL && (x.ptr == NULL || Returned(s, x.ptr))
    case Walk => Returned(s, x.prev) && (x.ptr == NULL || Returned(s, x.ptr))
    case SwapInner => Returned(s, x.prev) && (x.ptr == NULL || Returned(s, x.ptr)) && s.next[i] == x.ptr
    case Crash => false
    case _ => true
  }

  ghost predicate Inv(s: State, c: seq<Ref>) {
    WellFormed(s) && Linked(s, c) && forall i :: 0 <= i < |s.calls| ==> LocalsOk(s, i)
  }

  // ---------------------------------------------------------------- one step keeps the list

  /** What a step of call i leaves to the others: their own state, their own unlinked node, a list that only grows. */
  ghost predicate Leaves(s: State, t: State, i: nat) {
    && |t.calls| == |s.calls| == |t.next| == |s.next|
    && (forall j :: 0 <= j < |s.calls| && j != i ==> t.calls[j] == s.calls[j])
    && (forall j :: 0 <= j < |s.calls| && j != i && !Returned(s, j) ==> t.next[j] == s.next[j])
    && (forall r :: Returned(s, r) ==> Returned(t, r))
    && (s.head != NULL ==> t.head != NULL)
  }

  lemma {:induction false} StepLeaves(s: State, i: nat, once: bool)
    requires WellFormed(s) && i < |s.calls| && LocalsOk(s, i)
    ensures Leaves(s, Step(s, i, once), i)
  {
  }

  lemma {:induction false} OthersOk(s: State, t: State, i: nat, j: nat)
    requires Leaves(s, t, i) && j != i && j < |s.calls| && LocalsOk(s, j)
    ensures LocalsOk(t, j)
  {
  }

  lemma {:induction false} HeadIs(s: State, c: seq<Ref>)
    requires Linked(s, c)
    ensures s.head == if c == [] then NULL else c[0]
    ensures forall k :: 0 <= k < |c| ==> Returned(s, c[k])
    ensures forall k, l :: 0 <= k < l < |c| ==> c[k] != c[l]
  {
  }

  lemma {:induction false} SelfOk(s: State, c: seq<Ref>, i: nat, once: bool)
    requires WellFormed(s) && Linked(s, c) && i < |s.calls| && LocalsOk(s, i)
    ensures Step(s, i, once).calls[i].pc != Done ==> LocalsOk(Step(s, i, once), i)
  {
    assert s.head != NULL ==> Returned(s, s.head);
    HeadIs(s, c);
    forall r | Returned(s, r) ensures s.next[r] == NULL || Returned(s, s.next[r]) {
      var k :| 0 <= k < |c| && c[k] == r;
      assert Follows(s, c, k);
    }
  }

  /** c with x after its k-th element; k = 0 puts x first. */
  function Placed(c: seq<Ref>, k: nat, x: Ref): seq<Ref>
    requires k <= |c|
  {
    c[..k] + [x] + c[k..]
  }

  /** A step that links nothing leaves the list alone. */
  lemma {:induction false} NothingLinked(s: State, t: State, c: seq<Ref>)
    requires Linked(s, c) && t.head == s.head && |t.next| == |s.next| && |t.calls| == |s.calls|
    requires forall r: nat :: r < |s.calls| ==> (Returned(t, r) <==> Returned(s, r))
    requires forall r: nat :: Returned(s, r) ==> t.next[r] == s.next[r]
    ensures Linked(t, c)
  {
    forall k | 0 <= k < |c| ensures Returned(t, c[k]) && Follows(t, c, k) {
      assert Returned(s, c[k]) && Follows(s, c, k);
    }
  }

  lemma {:induction false} PlacedDistinct(c: seq<Ref>, k: nat, x: Ref)
    requires k <= |c| && x !in c && forall l, m :: 0 <= l < m < |c| ==> c[l] != c[m]
    ensures var d := Placed(c, k, x); forall l, m :: 0 <= l < m < |d| ==> d[l] != d[m]
  {
    var d := Placed(c, k, x);
    forall l, m | 0 <= l < m < |d| ensures d[l] != d[m] {
      var l0, m0 := if l > k then l - 1 else l, if m > k then m - 1 else m;
      assert (l == k || d[l] == c[l0]) && (m == k || d[m] == c[m0]);
    }
  }

  lemma {:induction false} PlacedElements(c: seq<Ref>, k: nat, x: Ref, r: Ref)
    requires k <= |c|
    ensures r in Placed(c, k, x) <==> r in c || r == x
  {
    assert c == c[..k] + c[k..];
  }

  lemma {:induction false} PlacedNext(s: State, t: State, c: seq<Ref>, k: nat, x: Ref, l: nat)
    requires Linked(s, c) && |t.next| == |s.next| && |t.calls| == |s.calls| && 0 <= x < |s.calls| && k <= |c|
    requires Returned(t, x)
    requires forall r: nat :: r < |s.calls| && r != x ==> (Returned(t, r) <==> Returned(s, r))
    requires t.next[x] == if k < |c| then c[k] else NULL
    requires forall r: nat :: Returned(s, r) ==> t.next[r] == if k > 0 && r == c[k - 1] then x else s.next[r]
    requires x !in c && l <= |c|
    ensures var d := Placed(c, k, x);
      Returned(t, d[l]) && Follows(t, d, l)
  {
    var d := Placed(c, k, x);
    if l < k {
      var r := c[l];
      assert d[l] == r && Returned(s, r) && r != x && Follows(s, c, l);
      assert l + 1 < k ==> c[l] != c[k - 1] && d[l + 1] == c[l + 1];
    } else if l > k {
      var r := c[l - 1];
      assert d[l] == r && Returned(s, r) && r != x && Follows(s, c, l - 1);
      assert k > 0 ==> c[k - 1] != c[l - 1];
      assert l < |c| ==> d[l + 1] == c[l];
    }
  }

  /** A successful CAS puts node x, whose next is what the CAS replaced, at place k of the list. */
  lemma {:induction false} OneLinked(s: State, t: State, c: seq<Ref>, k: nat, x: Ref)
    requires Linked(s, c) && |t.next| == |s.next| && |t.calls| == |s.calls| && 0 <= x < |s.calls| && k <= |c|
    requires !Returned(s, x) && Returned(t, x)
    requires forall r: nat :: r < |s.calls| && r != x ==> (Returned(t, r) <==> Returned(s, r))
    requires s.next[x] == t.next[x] == if k < |c| then c[k] else NULL
    requires t.head == if k == 0 then x else s.head
    requires forall r: nat :: Returned(s, r) ==> t.next[r] == if k > 0 && r == c[k - 1] then x else s.next[r]
    ensures Linked(t, Placed(c, k, x))
  {
    var d := Placed(c, k, x);
    assert forall l :: 0 <= l < |c| ==> Returned(s, c[l]);
    assert x !in c;
    PlacedDistinct(c, k, x);
    forall r | Returned(t, r) ensures r in d {
      PlacedElements(c, k, x, r);
      assert r == x || Returned(s, r);
    }
    forall l | 0 <= l < |d|
      ensures Returned(t, d[l]) && Follows(t, d, l)
    {
      PlacedNext(s, t, c, k, x, l);
    }
  }

  /** Whether the next step of call i is a CAS that succeeds. */
  predicate Succeeds(s: State, i: nat)
    requires WellFormed(s) && i < |s.calls|
  {
    var x := s.calls[i];
    || (x.pc == Swap && s.head == s.next[i])
    || (x.pc == SwapInner && x.prev != NULL && s.next[x.prev] == x.ptr)
  }

  lemma {:induction false} PlaceOf(s: State, c: seq<Ref>, r: Ref) returns (k: nat)
    requires Linked(s, c) && Returned(s, r)
    ensures 0 < k <= |c| && c[k - 1] == r && s.next[r] == if k < |c| then c[k] else NULL
  {
    var l :| 0 <= l < |c| && c[l] == r;
    assert Follows(s, c, l);
    k := l + 1;
  }

  lemma {:induction false} Linking(s: State, i: nat, once: bool)
    requires WellFormed(s) && i < |s.calls| && Succeeds(s, i) && LocalsOk(s, i)
    ensures var t, x := Step(s, i, once), s.calls[i];
      && |t.next| == |s.next| && |t.calls| == |s.calls| && !Returned(s, i) && Returned(t, i)
      && (forall r: nat :: r < |s.calls| && r != i ==> (Returned(t, r) <==> Returned(s, r)))
      && t.head == (if x.pc == Swap then i else s.head)
      && t.next == (if x.pc == Swap then s.next else s.next[x.prev := i])
      && (x.pc == SwapInner ==> Returned(s, x.prev) && s.next[i] == x.ptr)
  {
  }

  lemma {:induction false} NotLinking(s: State, i: nat, once: bool)
    requires WellFormed(s) && i < |s.calls| && !Succeeds(s, i) && LocalsOk(s, i)
    ensures var t := Step(s, i, once);
      && t.head == s.head && |t.next| == |s.next| && |t.calls| == |s.calls|
      && (forall r: nat :: r < |s.calls| ==> (Returned(t, r) <==> Returned(s, r)))
      && (forall r: nat :: Returned(s, r) ==> t.next[r] == s.next[r])
  {
  }

  /** One step: the list stays linked; it changes only by a successful CAS, which places the node of the caller. */
  lemma {:induction false} StepKeepsList(s: State, c: seq<Ref>, i: nat, once: bool) returns (d: seq<Ref>, k: nat)
    requires Inv(s, c) && i < |s.calls|
    ensures Linked(Step(s, i, once), d)
    ensures if Succeeds(s, i) then k <= |c| && d == Placed(c, k, i) else d == c
    ensures Succeeds(s, i) && s.calls[i].pc == Swap ==> k == 0
    ensures Succeeds(s, i) && s.calls[i].pc == SwapInner ==>
      0 < k && c[k - 1] == s.calls[i].prev && s.next[i] == s.calls[i].ptr == (if k < |c| then c[k] else NULL)
  {
    var t := Step(s, i, once);
    var x := s.calls[i];
    assert LocalsOk(s, i);
    d, k := c, 0;
    if Succeeds(s, i) {
      if x.pc == SwapInner {
        k := PlaceOf(s, c, x.prev);
      }
      hide Linked;
      Linking(s, i, once);
      HeadIs(s, c);
      OneLinked(s, t, c, k, i);
      d := Placed(c, k, i);
    } else {
      hide Linked;
      NotLinking(s, i, once);
      NothingLinked(s, t, c);
    }
  }

  /** Every step keeps the invariant: the list is intact, and no call follows a null pointer. */
  lemma {:induction false} StepKeepsInv(s: State, c: seq<Ref>, i: nat, once: bool) returns (d: seq<Ref>, k: nat)
    requires Inv(s, c) && i < |s.calls|
    ensures Inv(Step(s, i, once), d)
    ensures if Succeeds(s, i) then k <= |c| && d == Placed(c, k, i) else d == c
    ensures Succeeds(s, i) && s.calls[i].pc == Swap ==> k == 0
    ensures Succeeds(s, i) && s.calls[i].pc == SwapInner ==>
      0 < k && c[k - 1] == s.calls[i].prev && s.next[i] == s.calls[i].ptr == (if k < |c| then c[k] else NULL)
  {
    d, k := StepKeepsList(s, c, i, once);
    assert LocalsOk(s, i);
    StepLeaves(s, i, once);
    SelfOk(s, c, i, once);
    var t := Step(s, i, once);
    hide Linked, Step, Succeeds, WellFormed, Leaves;
    forall j | 0 <= j < |t.calls| ensures LocalsOk(t, j) {
      if j != i {
        OthersOk(s, t, i, j);
      }
    }
  }

  // ---------------------------------------------------------------- whole runs

  /** An empty list and calls that have not begun. */
  predicate Initial(s: State) {
    WellFormed(s) && s.head == NULL && forall i :: 0 <= i < |s.calls| ==> s.calls[i].pc == Start
  }

  /** The calls whose CAS succeeded, in the order of the successes. */
  function Log(s: State, schedule: seq<nat>, once: bool): seq<Ref>
    requires WellFormed(s)
  {
    if schedule == [] then []
    else
      var before, i := schedule[..|schedule| - 1], schedule[|schedule| - 1];
      var u := Run(s, before, once);
      Log(s, before, once) + if i < |u.calls| && Succeeds(u, i) then [i] else []
  }

  lemma {:induction false} InitialInv(s: State)
    requires Initial(s)
    ensures Inv(s, [])
  {
  }

  /**
    Every interleaving: the list ends, visits no node twice, holds exactly the nodes whose CAS succeeded, and no call
    ever follows a null pointer.
  */
  lemma {:induction false} ListIntact(s: State, schedule: seq<nat>, once: bool) returns (c: seq<Ref>)
    requires Initial(s)
    ensures Inv(Run(s, schedule, once), c)
    ensures forall r :: r in c <==> r in Log(s, schedule, once)
  {
    if schedule == [] {
      InitialInv(s);
      c := [];
    } else {
      var before, i := schedule[..|schedule| - 1], schedule[|schedule| - 1];
      var u := Run(s, before, once);
      var k;
      c := ListIntact(s, before, once);
      if i < |u.calls| {
        var b := c;
        c, k := StepKeepsInv(u, b, i, once);
        hide Inv;
        if Succeeds(u, i) {
          forall r ensures r in c <==> r in Log(s, schedule, once) {
            PlacedElements(b, k, i, r);
          }
        }
      }
    }
  }

  function Reversed(c: seq<Ref>): seq<Ref> {
    if c == [] then [] else [c[|c| - 1]] + Reversed(c[..|c| - 1])
  }

  lemma {:induction false} ReversedWithLast(c: seq<Ref>, x: Ref)
    ensures Reversed(c + [x]) == [x] + Reversed(c)
  {
    assert (c + [x])[..|c|] == c;
  }

  predicate AllOf(s: State, kind: Kind) {
    forall i :: 0 <= i < |s.calls| ==> s.calls[i].kind == kind
  }

  /** Steps of insertfirst alone. */
  predicate FirstOnly(s: State) {
    forall i :: 0 <= i < |s.calls| ==> s.calls[i].kind == First && s.calls[i].pc in {Start, Swap, Done}
  }

  lemma {:induction false} StaysFirst(s: State, i: nat, once: bool)
    requires WellFormed(s) && FirstOnly(s)
    ensures FirstOnly(Step(s, i, once))
  {
  }

  lemma {:induction false} FirstStep(s: State, c: seq<Ref>, i: nat, once: bool)
    requires Inv(s, c) && FirstOnly(s) && i < |s.calls|
    ensures FirstOnly(Step(s, i, once)) && Inv(Step(s, i, once), if Succeeds(s, i) then [i] + c else c)
  {
    StaysFirst(s, i, once);
    var d, k := StepKeepsInv(s, c, i, once);
    assert s.calls[i].pc != SwapInner;
    assert k == 0 && Succeeds(s, i) ==> Placed(c, k, i) == [i] + c;
  }

  /** With insertfirst only, the list is the reverse of the order in which the CASes succeeded. */
  lemma {:induction false} FirstReverses(s: State, schedule: seq<nat>, once: bool)
    requires Initial(s) && AllOf(s, First)
    ensures FirstOnly(Run(s, schedule, once)) && Inv(Run(s, schedule, once), Reversed(Log(s, schedule, once)))
  {
    if schedule == [] {
      InitialInv(s);
    } else {
      var before, i := schedule[..|schedule| - 1], schedule[|schedule| - 1];
      var u, log := Run(s, before, once), Log(s, before, once);
      FirstReverses(s, before, once);
      if i < |u.calls| {
        FirstStep(u, Reversed(log), i, once);
        hide Inv, Step, FirstOnly, Succeeds;
        ReversedWithLast(log, i);
        assert log + [] == log;
      } else {
        assert log + [] == log;
      }
    }
  }

  // ---------------------------------------------------------------- insertorder

  /** The value at a node. */
  function Val(s: State, r: Ref): int
    requires 0 <= r < |s.calls|
  {
    s.calls[r].value
  }

  ghost predicate Sorted(s: State, c: seq<Ref>) {
    && (forall k :: 0 <= k < |c| ==> 0 <= c[k] < |s.calls|)
    && (forall k, l :: 0 <= k < l < |c| ==> Val(s, c[k]) <= Val(s, c[l]))
  }

  /** The next step puts a node in front of a smaller one: the head read at line 72 was not the one tested at
      line 68. */
  predicate Stale(s: State, i: nat)
    requires WellFormed(s) && i < |s.calls|
  {
    s.calls[i].pc == Swap && s.head == s.next[i] != NULL && Val(s, s.head) < s.calls[i].value
  }

  /** No step of the run is stale. */
  predicate NeverStale(s: State, schedule: seq<nat>, once: bool)
    requires WellFormed(s)
  {
    schedule == [] ||
    (var before, i := schedule[..|schedule| - 1], schedule[|schedule| - 1];
     var u := Run(s, before, once);
     NeverStale(s, before, once) && !(i < |u.calls| && Stale(u, i)))
  }

  /** In a sorted list, calls past the first loop belong behind the head, and behind prev. */
  predicate PlaceOk(s: State, i: nat)
    requires WellFormed(s) && i < |s.calls|
  {
    var x := s.calls[i];
    && x.kind == Ordered
    && (x.pc in {Enter, EnterNext, ReadPrev} && s.head != NULL ==> Val(s, s.head) <= x.value)
    && (x.pc in {Walk, SwapInner} && x.prev != NULL ==> Val(s, x.prev) <= x.value)
    && (x.pc == SwapInner && x.ptr != NULL ==> x.value <= Val(s, x.ptr))
  }

  ghost predicate SortedInv(s: State, c: seq<Ref>) {
    Inv(s, c) && Sorted(s, c) && forall i :: 0 <= i < |s.calls| ==> PlaceOk(s, i)
  }

  lemma {:induction false} StepSameValues(s: State, i: nat, once: bool)
    requires WellFormed(s)
    ensures SameValues(s, Step(s, i, once))
  {
    hide Put, At;
  }

  lemma {:induction false} PlacedSorted(s: State, c: seq<Ref>, k: nat, x: Ref)
    requires Sorted(s, c) && k <= |c| && 0 <= x < |s.calls|
    requires k > 0 ==> Val(s, c[k - 1]) <= Val(s, x)
    requires k < |c| ==> Val(s, x) <= Val(s, c[k])
    ensures Sorted(s, Placed(c, k, x))
  {
    var d := Placed(c, k, x);
    forall l, m | 0 <= l < m < |d| ensures Val(s, d[l]) <= Val(s, d[m]) {
      var l0, m0 := if l > k then l - 1 else l, if m > k then m - 1 else m;
      assert (l == k || d[l] == c[l0]) && (m == k || d[m] == c[m0]);
      assert l < k ==> l == k - 1 || Val(s, c[l]) <= Val(s, c[k - 1]);
      assert m > k + 1 ==> Val(s, c[k]) <= Val(s, c[m - 1]);
    }
  }

  /** A sorted list stays sorted when a node is taken out. */
  lemma {:induction false} WithoutSorted(s: State, c: seq<Ref>, k: nat, x: Ref)
    requires k <= |c| && Sorted(s, Placed(c, k, x))
    ensures Sorted(s, c)
  {
    var d := Placed(c, k, x);
    forall l ensures 0 <= l < |c| ==> c[l] == d[if l < k then l else l + 1] {
    }
  }

  lemma {:induction false} SortedSame(s: State, t: State, c: seq<Ref>)
    requires SameValues(s, t)
    ensures Sorted(s, c) <==> Sorted(t, c)
  {
    assert forall r :: 0 <= r < |s.calls| ==> Val(t, r) == Val(s, r);
  }

  lemma {:induction false} HeadLowest(s: State, c: seq<Ref>, r: Ref)
    requires Inv(s, c) && Sorted(s, c) && Returned(s, r)
    ensures s.head != NULL && Val(s, s.head) <= Val(s, r)
  {
    var k :| 0 <= k < |c| && c[k] == r;
  }

  lemma {:induction false} OwnPlaceOk(s: State, c: seq<Ref>, i: nat, once: bool)
    requires SortedInv(s, c) && i < |s.calls|
    ensures PlaceOk(Step(s, i, once), i)
  {
    assert PlaceOk(s, i) && LocalsOk(s, i);
    if s.calls[i].pc == SwapInner {
      HeadLowest(s, c, s.calls[i].prev);
    }
  }

  lemma {:induction false} OthersPlaceOk(s: State, t: State, i: nat, j: nat)
    requires WellFormed(s) && WellFormed(t) && Leaves(s, t, i) && SameValues(s, t)
    requires j != i && j < |s.calls| && PlaceOk(s, j)
    requires LocalsOk(s, j)
    requires s.head != NULL && t.head != NULL ==> Val(t, t.head) <= Val(s, s.head)
    ensures PlaceOk(t, j)
  {
    assert forall r :: 0 <= r < |s.calls| ==> Val(t, r) == Val(s, r);
  }

  lemma {:induction false} HeadFalls(s: State, i: nat, once: bool)
    requires WellFormed(s) && i < |s.calls| && !Stale(s, i)
    ensures var t := Step(s, i, once); s.head != NULL && t.head != NULL ==> Val(t, t.head) <= Val(s, s.head)
  {
  }

  /** A step that is not stale keeps a sorted list sorted. */
  lemma {:induction false} StepKeepsSorted(s: State, c: seq<Ref>, i: nat, once: bool) returns (d: seq<Ref>)
    requires SortedInv(s, c) && i < |s.calls| && !Stale(s, i)
    ensures SortedInv(Step(s, i, once), d)
  {
    var t, k := Step(s, i, once), 0;
    d, k := StepKeepsInv(s, c, i, once);
    StepSameValues(s, i, once);
    OwnPlaceOk(s, c, i, once);
    assert LocalsOk(s, i) && PlaceOk(s, i);
    StepLeaves(s, i, once);
    HeadFalls(s, i, once);
    HeadIs(s, c);
    hide Step, Linked, Leaves;
    if Succeeds(s, i) {
      PlacedSorted(s, c, k, i);
    }
    SortedSame(s, t, d);
    hide Succeeds, Sorted, Stale, WellFormed, SameValues, Placed;
    forall j | 0 <= j < |t.calls| ensures PlaceOk(t, j) {
      if j != i {
        assert LocalsOk(s, j) && PlaceOk(s, j);
        OthersPlaceOk(s, t, i, j);
      }
    }
  }

  /** A stale step puts the list out of order. */
  lemma {:induction false} StaleUnsorts(s: State, c: seq<Ref>, i: nat, once: bool) returns (d: seq<Ref>)
    requires Inv(s, c) && i < |s.calls| && Stale(s, i)
    ensures Inv(Step(s, i, once), d) && !Sorted(Step(s, i, once), d)
  {
    var k;
    d, k := StepKeepsInv(s, c, i, once);
    StepSameValues(s, i, once);
    HeadIs(s, c);
    assert d[0] == i && d[1] == s.head;
    hide Step;
    assert Val(s, d[0]) > Val(s, d[1]);
    SortedSame(s, Step(s, i, once), d);
  }

  /** What is out of order stays out of order. */
  lemma {:induction false} StaysUnsorted(s: State, c: seq<Ref>, i: nat, once: bool) returns (d: seq<Ref>)
    requires Inv(s, c) && i < |s.calls| && !Sorted(s, c)
    ensures Inv(Step(s, i, once), d) && !Sorted(Step(s, i, once), d)
  {
    var k;
    d, k := StepKeepsInv(s, c, i, once);
    StepSameValues(s, i, once);
    hide Step;
    SortedSame(s, Step(s, i, once), d);
    if Sorted(s, d) && Succeeds(s, i) {
      WithoutSorted(s, c, k, i);
    }
  }

  lemma {:induction false} InitialSorted(s: State)
    requires Initial(s) && AllOf(s, Ordered)
    ensures SortedInv(s, [])
  {
  }

  /** A run of insertorder calls from the empty list leaves it sorted exactly when no step of the run was stale. */
  lemma {:induction false} SortedIffNeverStale(s: State, schedule: seq<nat>, once: bool) returns (c: seq<Ref>)
    requires Initial(s) && AllOf(s, Ordered)
    ensures Inv(Run(s, schedule, once), c)
    ensures Sorted(Run(s, schedule, once), c) <==> NeverStale(s, schedule, once)
    ensures NeverStale(s, schedule, once) ==> SortedInv(Run(s, schedule, once), c)
  {
    if schedule == [] {
      InitialSorted(s);
      c := [];
    } else {
      var before, i := schedule[..|schedule| - 1], schedule[|schedule| - 1];
      var u := Run(s, before, once);
      c := SortedIffNeverStale(s, before, once);
      hide Inv, Sorted, Stale, PlaceOk, Initial, AllOf;
      if i < |u.calls| {
        hide Step;
        if !NeverStale(s, before, once) {
          c := StaysUnsorted(u, c, i, once);
        } else if Stale(u, i) {
          c := StaleUnsorts(u, c, i, once);
        } else {
          c := StepKeepsSorted(u, c, i, once);
        }
      }
    }
  }

  // ---------------------------------------------------------------- one read of the head

  /** With one read, a call about to replace the head it read is not behind that head. */
  predicate Tested(s: State, i: nat)
    requires WellFormed(s) && i < |s.calls|
  {
    var x := s.calls[i];
    x.pc == Swap && s.next[i] != NULL ==> x.value <= Val(s, s.next[i])
  }

  lemma {:induction false} StepKeepsTested(s: State, i: nat, j: nat)
    requires WellFormed(s) && i < |s.calls| && j < |s.calls| && LocalsOk(s, i)
    requires s.calls[i].kind == s.calls[j].kind == Ordered && s.calls[i].pc != Link && s.calls[j].pc != Link
    requires s.calls[i].pc != RecheckValue && s.calls[j].pc != RecheckValue && Tested(s, j)
    ensures var t := Step(s, i, true);
      Tested(t, j) && t.calls[j].pc != Link && t.calls[j].pc != RecheckValue && t.calls[j].kind == Ordered
  {
    StepSameValues(s, i, true);
    assert forall r :: 0 <= r < |s.calls| ==> Val(Step(s, i, true), r) == Val(s, r);
    StepLeaves(s, i, true);
  }

  ghost predicate OnceInv(s: State) {
    WellFormed(s) && forall j :: 0 <= j < |s.calls| ==>
      s.calls[j].kind == Ordered && s.calls[j].pc != Link && s.calls[j].pc != RecheckValue && Tested(s, j)
  }

  /** Lines 68 and 72 reading the head once: no step is ever stale. */
  lemma {:induction false} OnceNeverStale(s: State, schedule: seq<nat>)
    requires Initial(s) && AllOf(s, Ordered)
    ensures NeverStale(s, schedule, true) && OnceInv(Run(s, schedule, true))
  {
    if schedule != [] {
      var before, i := schedule[..|schedule| - 1], schedule[|schedule| - 1];
      var u := Run(s, before, true);
      OnceNeverStale(s, before);
      if i < |u.calls| {
        var c := SortedIffNeverStale(s, before, true);
        assert LocalsOk(u, i);
        forall j | 0 <= j < |u.calls|
          ensures var t := Step(u, i, true);
            t.calls[j].kind == Ordered && t.calls[j].pc != Link && t.calls[j].pc != RecheckValue && Tested(t, j)
        {
          StepKeepsTested(u, i, j);
        }
        hide Step;
        assert Tested(u, i);
      }
    }
  }

  /** Hence with one read every run of insertorder calls from the empty list keeps it sorted. */
  lemma {:induction false} OneReadSorts(s: State, schedule: seq<nat>) returns (c: seq<Ref>)
    requires Initial(s) && AllOf(s, Ordered)
    ensures Inv(Run(s, schedule, true), c) && Sorted(Run(s, schedule, true), c)
  {
    OnceNeverStale(s, schedule);
    c := SortedIffNeverStale(s, schedule, true);
  }

  // ---------------------------------------------------------------- two reads of the head are not enough

  lemma {:induction false} RunOneMore(s: State, schedule: seq<nat>, i: nat, once: bool)
    requires WellFormed(s)
    ensures Run(s, schedule + [i], once) == Step(Run(s, schedule, once), i, once)
  {
    assert (schedule + [i])[..|schedule|] == schedule;
  }

  lemma {:induction false} RunTwoMore(s: State, schedule: seq<nat>, i: nat, once: bool)
    requires WellFormed(s)
    ensures Run(s, schedule + [i, i], once) == Step(Step(Run(s, schedule, once), i, once), i, once)
  {
    hide Step;
    RunOneMore(s, schedule, i, once);
    RunOneMore(s, schedule + [i], i, once);
    assert schedule + [i] + [i] == schedule + [i, i];
  }

  /** Call i tests the head, call j returns meanwhile, call i reads the head again. */
  function Crossed(i: nat, j: nat): seq<nat> {
    [] + [i, i] + [j, j] + [j, j] + [i, i]
  }

  /** Call i has found the list empty and is about to read the head once more. */
  function FirstPart(s: State, i: nat): State
    requires i < |s.calls|
  {
    s.(calls := s.calls[i := s.calls[i].(pc := Link)])
  }

  /** Call j has returned. */
  function SecondPart(s: State, i: nat, j: nat): State
    requires i < |s.calls| && j < |s.calls| && j < |s.next|
  {
    var u := FirstPart(s, i);
    State(j, u.next[j := NULL], u.calls[j := u.calls[j].(pc := Done)])
  }

  lemma {:induction false} FirstSteps(s: State, i: nat)
    requires Initial(s) && AllOf(s, Ordered) && i < |s.calls|
    ensures Step(Step(s, i, false), i, false) == FirstPart(s, i)
  {
  }

  lemma {:induction false} SecondSteps(s: State, i: nat, j: nat)
    requires Initial(s) && AllOf(s, Ordered) && i < |s.calls| && j < |s.calls| && i != j
    ensures WellFormed(FirstPart(s, i))
    ensures Step(Step(Step(Step(FirstPart(s, i), j, false), j, false), j, false), j, false) == SecondPart(s, i, j)
  {
  }

  lemma {:induction false} LastSteps(s: State, i: nat, j: nat)
    requires Initial(s) && AllOf(s, Ordered) && i < |s.calls| && j < |s.calls| && i != j
    ensures var u := SecondPart(s, i, j);
      && WellFormed(u)
      && Step(Step(u, i, false), i, false) == State(i, u.next[i := j], u.calls[i := u.calls[i].(pc := Done)])
  {
  }

  lemma {:induction false} CrossedRun(s: State, i: nat, j: nat)
    requires Initial(s) && AllOf(s, Ordered) && i < |s.calls| && j < |s.calls| && i != j
    ensures var t := Run(s, Crossed(i, j), false);
      && t.head == i && t.next[i] == j && t.next[j] == NULL && Returned(t, i) && Returned(t, j)
      && t.calls[i].value == s.calls[i].value && t.calls[j].value == s.calls[j].value
  {
    FirstSteps(s, i);
    SecondSteps(s, i, j);
    LastSteps(s, i, j);
    RunTwoMore(s, [], i, false);
    RunTwoMore(s, [] + [i, i], j, false);
    RunTwoMore(s, [] + [i, i] + [j, j], j, false);
    RunTwoMore(s, [] + [i, i] + [j, j] + [j, j], i, false);
    hide Step;
  }

  /** The list ends up in order. */
  ghost predicate EndsSorted(s: State) {
    exists c :: Linked(s, c) && Sorted(s, c)
  }

  /** Two calls, the first for the larger value: the list starts with the larger one. */
  lemma {:induction false} CrossedReads(s: State, i: nat, j: nat)
    requires Initial(s) && AllOf(s, Ordered) && i < |s.calls| && j < |s.calls|
    requires s.calls[i].value > s.calls[j].value
    ensures !EndsSorted(Run(s, Crossed(i, j), false))
  {
    CrossedRun(s, i, j);
    var t := Run(s, Crossed(i, j), false);
    hide Run, Crossed;
    forall c | Linked(t, c) ensures !Sorted(t, c) {
      assert c[0] == i && Follows(t, c, 0);
      assert c[1] == j;
      assert Val(t, c[0]) > Val(t, c[1]);
    }
  }

  lemma {:induction false} RunSameValues(s: State, schedule: seq<nat>, once: bool)
    requires WellFormed(s)
    ensures SameValues(s, Run(s, schedule, once))
  {
    if schedule != [] {
      var u := Run(s, schedule[..|schedule| - 1], once);
      RunSameValues(s, schedule[..|schedule| - 1], once);
      StepSameValues(u, schedule[|schedule| - 1], once);
      hide Step;
    }
  }

  lemma {:induction false} EqualIsSorted(s: State, schedule: seq<nat>)
    requires Initial(s)
    requires forall i, j :: 0 <= i < |s.calls| && 0 <= j < |s.calls| ==> s.calls[i].value == s.calls[j].value
    ensures EndsSorted(Run(s, schedule, false))
  {
    var c := ListIntact(s, schedule, false);
    RunSameValues(s, schedule, false);
    hide Run;
    assert Linked(Run(s, schedule, false), c);
  }

  /** The source as it is, with two reads: calls for insertorder leave the list in order under every schedule exactly
      when they all insert the same value. */
  lemma {:induction false} SortedIffAllEqual(s: State)
    requires Initial(s) && AllOf(s, Ordered)
    ensures (forall schedule :: EndsSorted(Run(s, schedule, false)))
       <==> (forall i, j :: 0 <= i < |s.calls| && 0 <= j < |s.calls| ==> s.calls[i].value == s.calls[j].value)
  {
    if i, j :| 0 <= i < |s.calls| && 0 <= j < |s.calls| && s.calls[i].value != s.calls[j].value {
      if s.calls[i].value > s.calls[j].value {
        CrossedReads(s, i, j);
      } else {
        CrossedReads(s, j, i);
      }
    } else {
      forall schedule ensures EndsSorted(Run(s, schedule, false)) {
        EqualIsSorted(s, schedule);
      }
    }
  }

  /** Two insertorder calls, for 7 and 5. */
  function Example(): (s: State)
    ensures Initial(s) && AllOf(s, Ordered)
  {
    State(NULL, [NULL, NULL], [Call(Ordered, 7, Start, NULL, NULL), Call(Ordered, 5, Start, NULL, NULL)])
  }

  /** When they cross, both return and the list reads 7, 5. */
  lemma {:induction false} SevenBeforeFive()
    ensures var t := Run(Example(), Crossed(0, 1), false);
      && Linked(t, [0, 1]) && Val(t, 0) == 7 && Val(t, 1) == 5 && !EndsSorted(t)
  {
    var s := Example();
    CrossedReads(s, 0, 1);
    CrossedRun(s, 0, 1);
    var t := Run(s, Crossed(0, 1), false);
    var c := ListIntact(s, Crossed(0, 1), false);
    hide Run, EndsSorted;
    assert Follows(t, c, 0) && c[1] == 1;
    assert Follows(t, c, 1);
    assert c == [0, 1];
  }
}
