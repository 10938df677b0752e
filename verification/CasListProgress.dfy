/**
  Progress of the list insertions of concurrency/blockfreelinkedlist.c: from every reachable state a call that runs
  alone returns after a bounded number of steps with its node in the list; where the node then is, and exactly when the
  list is in order.
*/
module CasListProgress {
  import opened CasList

  /** How many nodes of the list c there are from r on. */
  function Ahead(c: seq<Ref>, r: Ref): (n: nat)
    ensures n <= |c| && (r !in c ==> n == 0)
  {
    if c == [] then 0 else if c[0] == r then |c| else Ahead(c[1..], r)
  }

  lemma {:induction false} AheadAt(c: seq<Ref>, k: nat)
    requires k < |c| && forall l, m :: 0 <= l < m < |c| ==> c[l] != c[m]
    ensures Ahead(c, c[k]) == |c| - k
  {
    if k > 0 {
      AheadAt(c[1..], k - 1);
    }
  }

  lemma {:induction false} AheadNext(s: State, c: seq<Ref>, r: Ref)
    requires Linked(s, c) && Returned(s, r)
    ensures Ahead(c, s.next[r]) < Ahead(c, r)
  {
    var k :| 0 <= k < |c| && c[k] == r;
    assert Follows(s, c, k);
    AheadAt(c, k);
    if k + 1 < |c| {
      AheadAt(c, k + 1);
    } else {
      assert forall l :: 0 <= l < |c| ==> Returned(s, c[l]);
    }
  }

  /** prev still points to ptr. */
  predicate Fresh(s: State, prev: Ref, ptr: Ref) {
    0 <= prev < |s.next| && s.next[prev] == ptr
  }

  /** A bound for the steps call i still has to take when it runs alone. */
  function Effort(s: State, c: seq<Ref>, i: nat): nat
    requires WellFormed(s) && i < |s.calls|
  {
    var x, n := s.calls[i], |c|;
    match x.pc
    case Start => if x.kind == First then 2 else n + 9
    case SecondTest => n + 8
    case Recheck => n + 7
    case RecheckValue => n + 6
    case Link => 2
    case Swap => if s.head == s.next[i] then 1 else if x.kind == First then 3 else n + 8
    case Enter => n + 5
    case EnterNext => n + 4 + if x.prev == s.head then 0 else n + 5
    case ReadPrev => n + 3 + if Fresh(s, s.head, x.ptr) then 0 else n + 5
    case Walk => Ahead(c, x.ptr) + 2 + if Fresh(s, x.prev, x.ptr) then 0 else n + 5
    case SwapInner => 1 + if Fresh(s, x.prev, x.ptr) then 0 else n + 5
    case Done => 0
    case Crash => 0
  }

  lemma {:induction false} EffortBound(s: State, c: seq<Ref>, i: nat)
    requires WellFormed(s) && i < |s.calls|
    ensures Effort(s, c, i) <= 2 * |c| + 9
  {
  }

  lemma {:induction false} WalkShortens(s: State, c: seq<Ref>, i: nat, once: bool)
    requires Inv(s, c) && i < |s.calls| && s.calls[i].pc == Walk
    ensures var t := Step(s, i, once); WellFormed(t) && Effort(t, c, i) < Effort(s, c, i)
  {
    var x := s.calls[i];
    assert LocalsOk(s, i);
    if x.ptr != NULL {
      AheadNext(s, c, x.ptr);
    }
    hide Linked, Ahead;
  }

  lemma {:induction false} EntryShortens(s: State, c: seq<Ref>, i: nat, once: bool)
    requires Inv(s, c) && i < |s.calls| && s.calls[i].pc in {Enter, EnterNext, ReadPrev}
    ensures var t := Step(s, i, once); WellFormed(t) && Effort(t, c, i) < Effort(s, c, i)
  {
    assert LocalsOk(s, i);
    HeadIs(s, c);
    AheadNext(s, c, s.head);
    hide Linked, Ahead;
  }

  /** Every step that does not link the node brings the call nearer to its end. */
  lemma {:induction false} StepShortens(s: State, c: seq<Ref>, i: nat, once: bool)
    requires Inv(s, c) && i < |s.calls| && !Returned(s, i) && !Succeeds(s, i)
    ensures var t := Step(s, i, once); WellFormed(t) && Effort(t, c, i) < Effort(s, c, i)
  {
    assert LocalsOk(s, i);
    if s.calls[i].pc == Walk {
      WalkShortens(s, c, i, once);
    } else if s.calls[i].pc in {Enter, EnterNext, ReadPrev} {
      EntryShortens(s, c, i, once);
    } else {
      hide Linked, Ahead;
    }
  }

  function Alone(s: State, i: nat, m: nat, once: bool): (t: State)
    requires WellFormed(s)
    ensures WellFormed(t) && |t.calls| == |s.calls|
    decreases m
  {
    if m == 0 then s else Alone(Step(s, i, once), i, m - 1, once)
  }

  lemma {:induction false} AloneNext(s: State, i: nat, m: nat, once: bool)
    requires WellFormed(s)
    ensures Alone(s, i, m + 1, once) == Alone(Step(s, i, once), i, m, once)
    ensures Alone(s, i, 0, once) == s
  {
  }

  function Repeated(i: nat, m: nat): (r: seq<nat>)
    ensures |r| == m
  {
    if m == 0 then [] else [i] + Repeated(i, m - 1)
  }

  /** Running alone is a run in which only call i is scheduled. */
  lemma {:induction false} AloneIsRun(s: State, schedule: seq<nat>, i: nat, m: nat, once: bool)
    requires WellFormed(s)
    ensures Run(s, schedule + Repeated(i, m), once) == Alone(Run(s, schedule, once), i, m, once)
    decreases m
  {
    hide Step, Run, Alone, WellFormed;
    if m == 0 {
      assert schedule + [] == schedule;
      AloneNext(Run(s, schedule, once), i, 0, once);
    } else {
      RunOneMore(s, schedule, i, once);
      AloneNext(Run(s, schedule, once), i, m - 1, once);
      AloneIsRun(s, schedule + [i], i, m - 1, once);
      assert schedule + Repeated(i, m) == schedule + [i] + Repeated(i, m - 1);
    }
  }

  /** insertfirst uses no other places. */
  predicate KindOk(s: State, i: nat)
    requires i < |s.calls|
  {
    s.calls[i].kind == First ==> s.calls[i].pc in {Start, Swap, Done}
  }

  lemma {:induction false} StepOfOther(s: State, i: nat, j: nat, once: bool)
    requires WellFormed(s) && j < |s.calls| && i != j
    ensures Step(s, i, once).calls[j] == s.calls[j]
  {
  }

  lemma {:induction false} StepOfFirst(s: State, i: nat, once: bool)
    requires WellFormed(s) && i < |s.calls| && s.calls[i].kind == First && s.calls[i].pc in {Start, Swap, Done}
    ensures Step(s, i, once).calls[i].pc in {Start, Swap, Done}
  {
  }

  lemma {:induction false} StepKeepsKind(s: State, i: nat, j: nat, once: bool)
    requires WellFormed(s) && j < |s.calls| && KindOk(s, j)
    ensures KindOk(Step(s, i, once), j)
  {
    StepSameValues(s, i, once);
    if i != j {
      StepOfOther(s, i, j, once);
    } else if s.calls[i].kind == First {
      StepOfFirst(s, i, once);
    }
    hide Step;
  }

  lemma {:induction false} RunKeepsKind(s: State, schedule: seq<nat>, j: nat, once: bool)
    requires Initial(s) && j < |s.calls|
    ensures KindOk(Run(s, schedule, once), j)
  {
    if schedule != [] {
      RunKeepsKind(s, schedule[..|schedule| - 1], j, once);
      StepKeepsKind(Run(s, schedule[..|schedule| - 1], once), schedule[|schedule| - 1], j, once);
    }
  }

  /** What the other calls hold does not change while call i runs. */
  predicate OthersSame(s: State, t: State, i: nat) {
    |t.calls| == |s.calls| && forall j :: 0 <= j < |s.calls| && j != i ==> t.calls[j] == s.calls[j]
  }

  /** Call i has returned, after m steps of its own, with its node at place k of the list c. */
  ghost predicate Inserted(s: State, t: State, c: seq<Ref>, d: seq<Ref>, k: nat, i: nat) {
    && Inv(t, d) && Returned(t, i)
    && k <= |c| && d == Placed(c, k, i)
    && SameValues(s, t) && OthersSame(s, t, i)
    && (i < |s.calls| && s.calls[i].kind == First ==> k == 0)
  }

  lemma {:induction false} SameBefore(s: State, u: State, t: State, c: seq<Ref>, d: seq<Ref>, k: nat, i: nat)
    requires Inserted(u, t, c, d, k, i) && SameValues(s, u) && OthersSame(s, u, i)
    ensures Inserted(s, t, c, d, k, i)
  {
  }

  lemma {:induction false} Links(s: State, c: seq<Ref>, i: nat, once: bool) returns (d: seq<Ref>, k: nat)
    requires Inv(s, c) && i < |s.calls| && KindOk(s, i) && Succeeds(s, i)
    ensures Inserted(s, Step(s, i, once), c, d, k, i) && Effort(s, c, i) >= 1
    ensures s.calls[i].pc == Swap ==> k == 0
    ensures s.calls[i].pc == SwapInner ==> 0 < k && c[k - 1] == s.calls[i].prev
  {
    d, k := StepKeepsInv(s, c, i, once);
    assert LocalsOk(s, i);
    StepSameValues(s, i, once);
    StepLeaves(s, i, once);
    Linking(s, i, once);
    hide Step, Linked;
  }

  /** A step that does not link the node. */
  lemma {:induction false} GoesOn(s: State, c: seq<Ref>, i: nat, once: bool)
    requires Inv(s, c) && i < |s.calls| && !Returned(s, i) && KindOk(s, i) && !Succeeds(s, i)
    ensures var u := Step(s, i, once);
      && Inv(u, c) && |u.calls| == |s.calls| && !Returned(u, i) && KindOk(u, i)
      && Effort(u, c, i) < Effort(s, c, i) && SameValues(s, u) && OthersSame(s, u, i)
  {
    assert LocalsOk(s, i);
    StepShortens(s, c, i, once);
    StepSameValues(s, i, once);
    StepLeaves(s, i, once);
    NotLinking(s, i, once);
    StepKeepsKind(s, i, i, once);
    hide Step, Effort, SameValues, Linked;
    var d, k := StepKeepsInv(s, c, i, once);
  }

  lemma {:induction false} FromNext(s: State, c: seq<Ref>, d: seq<Ref>, k: nat, i: nat, m: nat, once: bool)
    requires WellFormed(s) && i < |s.calls|
    requires var u := Step(s, i, once);
      && SameValues(s, u) && OthersSame(s, u, i)
      && Inserted(u, Alone(u, i, m, once), c, d, k, i)
    ensures Inserted(s, Alone(s, i, m + 1, once), c, d, k, i)
  {
    AloneNext(s, i, m, once);
    hide Step, Alone, Inserted, WellFormed;
    SameBefore(s, Step(s, i, once), Alone(Step(s, i, once), i, m, once), c, d, k, i);
  }

  /** The list is intact and call i has not returned. */
  ghost predicate Runs(s: State, c: seq<Ref>, i: nat) {
    Inv(s, c) && WellFormed(s) && i < |s.calls| && !Returned(s, i) && KindOk(s, i)
  }

  /** A call that runs alone returns, and its node is in the list: that of insertfirst in front. */
  lemma {:induction false} AloneReturns(s: State, c: seq<Ref>, i: nat, once: bool) returns (m: nat, d: seq<Ref>, k: nat)
    requires Runs(s, c, i)
    ensures m <= Effort(s, c, i)
    ensures Inserted(s, Alone(s, i, m, once), c, d, k, i)
    decreases Effort(s, c, i)
  {
    hide Inv, Step, Inserted, Succeeds, WellFormed, Returned, KindOk, Alone, Effort, SameValues, OthersSame;
    if Succeeds(s, i) {
      m := 1;
      d, k := Links(s, c, i, once);
      AloneNext(s, i, 0, once);
      AloneNext(Step(s, i, once), i, 0, once);
    } else {
      GoesOn(s, c, i, once);
      var n;
      n, d, k := AloneReturns(Step(s, i, once), c, i, once);
      FromNext(s, c, d, k, i, n, once);
      m := n + 1;
    }
  }

  // ---------------------------------------------------------------- when the list is then in order

  /** Call i will not put its node in front of a smaller one before it looks at the head again. */
  predicate Safe(s: State, i: nat)
    requires WellFormed(s) && i < |s.calls|
  {
    var x := s.calls[i];
    x.pc == Link || (x.pc == Swap && s.head == s.next[i]) ==> s.head == NULL || x.value <= Val(s, s.head)
  }

  lemma {:induction false} StepKeepsSafe(s: State, c: seq<Ref>, i: nat, once: bool)
    requires SortedInv(s, c) && i < |s.calls| && !Returned(s, i) && !Succeeds(s, i)
    ensures var t := Step(s, i, once); WellFormed(t) && (Safe(t, i) <==> Safe(s, i))
  {
    assert PlaceOk(s, i) && LocalsOk(s, i);
    hide Linked, Sorted;
  }

  lemma {:induction false} Prefixes(s: State, c: seq<Ref>, d: seq<Ref>, n: nat)
    requires Linked(s, c) && Linked(s, d) && n <= |c|
    ensures n <= |d| && c[..n] == d[..n]
  {
    if n > 0 {
      Prefixes(s, c, d, n - 1);
      assert Returned(s, c[n - 1]);
      if n > 1 {
        assert Follows(s, c, n - 2) && Follows(s, d, n - 2);
        assert c[..n - 1][n - 2] == d[..n - 1][n - 2];
      }
      assert c[..n] == c[..n - 1] + [c[n - 1]];
    }
  }

  /** A state has one list. */
  lemma {:induction false} OneList(s: State, c: seq<Ref>, d: seq<Ref>)
    requires Linked(s, c) && Linked(s, d)
    ensures c == d
  {
    Prefixes(s, c, d, |c|);
    Prefixes(s, d, c, |d|);
  }

  /** A step that links nothing leaves the same list. */
  lemma {:induction false} SameList(s: State, c: seq<Ref>, d: seq<Ref>, i: nat, once: bool)
    requires Inv(s, c) && i < |s.calls| && !Succeeds(s, i) && SortedInv(Step(s, i, once), d)
    ensures SortedInv(Step(s, i, once), c)
  {
    var e, k := StepKeepsInv(s, c, i, once);
    hide Step, Succeeds;
    OneList(Step(s, i, once), d, e);
  }

  lemma {:induction false} LinkSorts(s: State, c: seq<Ref>, d: seq<Ref>, i: nat, once: bool)
    requires SortedInv(s, c) && i < |s.calls| && Succeeds(s, i) && Inv(Step(s, i, once), d)
    ensures Sorted(Step(s, i, once), d) <==> Safe(s, i)
    ensures Safe(s, i) ==> SortedInv(Step(s, i, once), d)
  {
    assert Stale(s, i) <==> !Safe(s, i);
    var e;
    if Stale(s, i) {
      e := StaleUnsorts(s, c, i, once);
    } else {
      e := StepKeepsSorted(s, c, i, once);
    }
    hide Step, Succeeds, Safe, Stale, Sorted;
    OneList(Step(s, i, once), d, e);
  }

  /** Call i has returned with its node in the list, which is in order exactly when the call was safe. */
  ghost predicate InsertedSafely(s: State, t: State, c: seq<Ref>, d: seq<Ref>, k: nat, i: nat) {
    && Inserted(s, t, c, d, k, i)
    && WellFormed(s) && i < |s.calls|
    && (Sorted(t, d) <==> Safe(s, i)) && (Safe(s, i) ==> SortedInv(t, d))
  }

  lemma {:induction false} LinksSorted(s: State, c: seq<Ref>, i: nat, once: bool) returns (d: seq<Ref>, k: nat)
    requires SortedInv(s, c) && i < |s.calls| && Succeeds(s, i)
    ensures InsertedSafely(s, Alone(s, i, 1, once), c, d, k, i) && Effort(s, c, i) >= 1
  {
    assert PlaceOk(s, i);
    AloneNext(s, i, 0, once);
    AloneNext(Step(s, i, once), i, 0, once);
    d, k := Links(s, c, i, once);
    hide Step, Sorted;
    LinkSorts(s, c, d, i, once);
  }

  lemma {:induction false} OneStep(s: State, c: seq<Ref>, i: nat, once: bool)
    requires SortedInv(s, c) && i < |s.calls| && !Returned(s, i) && !Succeeds(s, i)
    ensures var u := Step(s, i, once);
      && SortedInv(u, c) && |u.calls| == |s.calls| && !Returned(u, i) && (Safe(u, i) <==> Safe(s, i))
      && Effort(u, c, i) < Effort(s, c, i) && SameValues(s, u) && OthersSame(s, u, i)
  {
    assert LocalsOk(s, i);
    StepShortens(s, c, i, once);
    StepKeepsSafe(s, c, i, once);
    StepSameValues(s, i, once);
    StepLeaves(s, i, once);
    NotLinking(s, i, once);
    hide Step, Effort, Safe, Sorted, SameValues, Linked;
    var d := StepKeepsSorted(s, c, i, once);
    hide Succeeds;
    SameList(s, c, d, i, once);
  }

  lemma {:induction false} SafeBefore(s: State, u: State, t: State, c: seq<Ref>, d: seq<Ref>, k: nat, i: nat)
    requires InsertedSafely(u, t, c, d, k, i) && SameValues(s, u) && OthersSame(s, u, i)
    requires WellFormed(s) && (Safe(u, i) <==> Safe(s, i))
    ensures InsertedSafely(s, t, c, d, k, i)
  {
    SameBefore(s, u, t, c, d, k, i);
    hide Safe, Sorted, SortedInv, Inserted;
  }

  lemma {:induction false} SafeFromNext(s: State, c: seq<Ref>, d: seq<Ref>, k: nat, i: nat, m: nat, once: bool)
    requires SortedInv(s, c) && i < |s.calls| && !Returned(s, i) && !Succeeds(s, i)
    requires var u := Step(s, i, once);
      && i < |u.calls| && WellFormed(u)
      && InsertedSafely(u, Alone(u, i, m, once), c, d, k, i)
    ensures InsertedSafely(s, Alone(s, i, m + 1, once), c, d, k, i)
  {
    OneStep(s, c, i, once);
    AloneNext(s, i, m, once);
    hide Step, Alone, InsertedSafely, Inserted, Succeeds, Safe, Effort;
    SafeBefore(s, Step(s, i, once), Alone(Step(s, i, once), i, m, once), c, d, k, i);
  }

  /** The list is in order and call i has not returned. */
  ghost predicate RunsSorted(s: State, c: seq<Ref>, i: nat) {
    SortedInv(s, c) && WellFormed(s) && i < |s.calls| && !Returned(s, i)
  }

  /** From an ordered list a call of insertorder that runs alone leaves an ordered list exactly when it is safe; one
      that has not begun is. */
  lemma {:induction false} AloneSorts(s: State, c: seq<Ref>, i: nat, once: bool) returns (m: nat, d: seq<Ref>, k: nat)
    requires RunsSorted(s, c, i)
    ensures m <= Effort(s, c, i)
    ensures InsertedSafely(s, Alone(s, i, m, once), c, d, k, i)
    decreases Effort(s, c, i)
  {
    hide SortedInv, Step, InsertedSafely, Succeeds, Safe, WellFormed, Returned, Alone, Effort;
    if Succeeds(s, i) {
      m := 1;
      d, k := LinksSorted(s, c, i, once);
    } else {
      OneStep(s, c, i, once);
      var n;
      n, d, k := AloneSorts(Step(s, i, once), c, i, once);
      SafeFromNext(s, c, d, k, i, n, once);
      m := n + 1;
    }
  }

  // ---------------------------------------------------------------- where the node goes

  /** The place before the first node with a value that is not less, where nodes after the first are looked at from
      place 1 on, and the first is passed only by values that are not less than its own. */
  ghost predicate RightPlace(s: State, c: seq<Ref>, v: int, k: nat) {
    && (forall l :: 0 <= l < |c| ==> 0 <= c[l] < |s.calls|)
    && k <= |c|
    && (k == 0 <==> c == [] || Val(s, c[0]) > v)
    && (forall l :: 1 <= l < k ==> Val(s, c[l]) < v)
    && (0 < k < |c| ==> Val(s, c[k]) >= v)
  }

  /** prev and ptr are the nodes before and at place k, and the nodes between the first one and place k are smaller. */
  ghost predicate Passed(s: State, c: seq<Ref>, v: int, prev: Ref, ptr: Ref, k: nat) {
    && 1 <= k <= |c| && prev == c[k - 1] && ptr == (if k < |c| then c[k] else NULL)
    && forall l :: 1 <= l < k ==> 0 <= c[l] < |s.calls| && Val(s, c[l]) < v
  }

  /** Where a call of insertorder is that has run alone since it began, the list being c. */
  ghost predicate OnWay(s: State, c: seq<Ref>, i: nat) {
    && Runs(s, c, i) && s.calls[i].kind == Ordered
    && var x, first := s.calls[i], s.head == NULL || Val(s, s.head) > s.calls[i].value;
       match x.pc
       case Start => true
       case SecondTest => s.head != NULL
       case Recheck => first
       case RecheckValue => first
       case Link => first
       case Swap => first && s.head == s.next[i]
       case Enter => !first
       case EnterNext => !first && x.prev == s.head
       case ReadPrev => !first && x.ptr == s.next[s.head]
       case Walk => !first && exists k: nat :: Passed(s, c, x.value, x.prev, x.ptr, k)
       case SwapInner =>
         && !first && (x.ptr == NULL || Val(s, x.ptr) >= x.value)
         && exists k: nat :: Passed(s, c, x.value, x.prev, x.ptr, k)
       case Done => false
       case Crash => false
  }

  lemma {:induction false} HeadPassed(s: State, c: seq<Ref>, v: int)
    requires Linked(s, c) && s.head != NULL
    ensures 0 <= s.head < |s.next| && Passed(s, c, v, s.head, s.next[s.head], 1)
  {
    assert Returned(s, c[0]) && Follows(s, c, 0);
  }

  lemma {:induction false} OneMorePassed(s: State, c: seq<Ref>, v: int, prev: Ref, ptr: Ref, k: nat)
    requires Linked(s, c) && Passed(s, c, v, prev, ptr, k) && ptr != NULL
    ensures 0 <= ptr < |s.calls|
    ensures Val(s, ptr) < v ==> Passed(s, c, v, ptr, s.next[ptr], k + 1)
  {
    assert k < |c|;
    assert Returned(s, c[k]) && Follows(s, c, k);
  }

  lemma {:induction false} PassedAfter(s: State, t: State, c: seq<Ref>, v: int, prev: Ref, ptr: Ref, k: nat)
    requires Passed(s, c, v, prev, ptr, k) && SameValues(s, t)
    ensures Passed(t, c, v, prev, ptr, k)
  {
    assert forall r :: 0 <= r < |s.calls| ==> Val(t, r) == Val(s, r);
  }

  lemma {:induction false} WalksOn(s: State, c: seq<Ref>, i: nat, once: bool)
    requires OnWay(s, c, i) && s.calls[i].pc in {ReadPrev, Walk} && Runs(Step(s, i, once), c, i)
    ensures OnWay(Step(s, i, once), c, i)
  {
    var t, x := Step(s, i, once), s.calls[i];
    StepSameValues(s, i, once);
    assert LocalsOk(s, i);
    if x.pc == ReadPrev {
      HeadPassed(s, c, x.value);
      PassedAfter(s, t, c, x.value, s.head, s.next[s.head], 1);
    } else {
      var k: nat :| Passed(s, c, x.value, x.prev, x.ptr, k);
      PassedAfter(s, t, c, x.value, x.prev, x.ptr, k);
      if x.ptr != NULL {
        OneMorePassed(s, c, x.value, x.prev, x.ptr, k);
        if Val(s, x.ptr) < x.value {
          PassedAfter(s, t, c, x.value, x.ptr, s.next[x.ptr], k + 1);
        }
      }
    }
    hide Linked, Passed;
  }

  lemma {:induction false} GoesOnItsWay(s: State, c: seq<Ref>, i: nat, once: bool)
    requires OnWay(s, c, i) && !Succeeds(s, i)
    ensures OnWay(Step(s, i, once), c, i)
  {
    GoesOn(s, c, i, once);
    assert LocalsOk(s, i);
    if s.calls[i].pc in {ReadPrev, Walk} {
      WalksOn(s, c, i, once);
    } else {
      StepSameValues(s, i, once);
      hide Linked, Passed;
    }
  }

  lemma {:induction false} FirstPlace(s: State, c: seq<Ref>, v: int)
    requires Linked(s, c) && (s.head == NULL || Val(s, s.head) > v)
    ensures RightPlace(s, c, v, 0)
  {
    assert forall l :: 0 <= l < |c| ==> Returned(s, c[l]);
  }

  lemma {:induction false} LaterPlace(s: State, c: seq<Ref>, v: int, prev: Ref, ptr: Ref, k: nat)
    requires Linked(s, c) && s.head != NULL && Val(s, s.head) <= v && Passed(s, c, v, prev, ptr, k)
    requires ptr == NULL || Val(s, ptr) >= v
    ensures RightPlace(s, c, v, k)
    ensures forall l :: 0 <= l < |c| && c[l] == prev ==> l + 1 == k
  {
    assert forall l :: 0 <= l < |c| ==> Returned(s, c[l]);
  }

  lemma {:induction false} LinksInPlace(s: State, c: seq<Ref>, i: nat, once: bool) returns (d: seq<Ref>, k: nat)
    requires OnWay(s, c, i) && Succeeds(s, i)
    ensures Inserted(s, Alone(s, i, 1, once), c, d, k, i) && RightPlace(s, c, s.calls[i].value, k)
    ensures Effort(s, c, i) >= 1
  {
    AloneNext(s, i, 0, once);
    AloneNext(Step(s, i, once), i, 0, once);
    var x := s.calls[i];
    d, k := Links(s, c, i, once);
    if x.pc == Swap {
      FirstPlace(s, c, x.value);
    } else {
      var l: nat :| Passed(s, c, x.value, x.prev, x.ptr, l);
      LaterPlace(s, c, x.value, x.prev, x.ptr, l);
    }
    hide Linked, Step, RightPlace, Inserted;
  }

  lemma {:induction false} PlaceBefore(s: State, u: State, c: seq<Ref>, v: int, k: nat)
    requires SameValues(s, u) && RightPlace(u, c, v, k)
    ensures RightPlace(s, c, v, k)
  {
    assert forall r :: 0 <= r < |s.calls| ==> Val(u, r) == Val(s, r);
  }

  /** A call of insertorder that begins and runs alone, whether the list is in order or not, puts its node at the right
      place: in front exactly when the list is empty or starts with a greater value, otherwise before the first later
      node that is not less. */
  lemma {:induction false} AlonePlaces(s: State, c: seq<Ref>, i: nat, once: bool) returns (m: nat, d: seq<Ref>, k: nat)
    requires OnWay(s, c, i)
    ensures m <= Effort(s, c, i)
    ensures Inserted(s, Alone(s, i, m, once), c, d, k, i) && RightPlace(s, c, s.calls[i].value, k)
    decreases Effort(s, c, i)
  {
    var u := Step(s, i, once);
    hide Step, Runs, OnWay, Succeeds, Alone, Effort, Inserted, RightPlace, Inv;
    if Succeeds(s, i) {
      m := 1;
      d, k := LinksInPlace(s, c, i, once);
    } else {
      GoesOnItsWay(s, c, i, once);
      GoesOn(s, c, i, once);
      var n;
      n, d, k := AlonePlaces(u, c, i, once);
      FromNext(s, c, d, k, i, n, once);
      PlaceBefore(s, u, c, s.calls[i].value, k);
      m := n + 1;
    }
  }

  // ---------------------------------------------------------------- from every reachable state

  /** In every run a call that has not returned yet does so when it runs alone, within a number of steps linear in the
      length of the list, and the list gains its node and changes in no other way; insertfirst puts it in front. */
  lemma {:induction false} EveryCallReturns(s: State, schedule: seq<nat>, i: nat, once: bool)
    returns (c: seq<Ref>, m: nat, d: seq<Ref>, k: nat)
    requires Initial(s) && i < |s.calls| && !Returned(Run(s, schedule, once), i)
    ensures var u := Run(s, schedule, once);
      && Inv(u, c) && m <= 2 * |c| + 9
      && Inserted(u, Alone(u, i, m, once), c, d, k, i)
  {
    c := ListIntact(s, schedule, once);
    RunKeepsKind(s, schedule, i, once);
    var u := Run(s, schedule, once);
    EffortBound(u, c, i);
    hide Run, Effort, Inserted, Inv;
    m, d, k := AloneReturns(u, c, i, once);
  }

  /** A call of insertorder that begins and runs alone after any run that left the list in order keeps it in order. */
  lemma {:induction false} NextCallSorts(s: State, schedule: seq<nat>, i: nat, once: bool)
    returns (c: seq<Ref>, m: nat, d: seq<Ref>, k: nat)
    requires Initial(s) && AllOf(s, Ordered) && i < |s.calls| && NeverStale(s, schedule, once)
    requires Run(s, schedule, once).calls[i].pc == Start
    ensures var u := Run(s, schedule, once); var t := Alone(u, i, m, once);
      && SortedInv(u, c) && m <= 2 * |c| + 9
      && Inserted(u, t, c, d, k, i) && SortedInv(t, d)
  {
    c := SortedIffNeverStale(s, schedule, once);
    var u := Run(s, schedule, once);
    EffortBound(u, c, i);
    assert !Returned(u, i) && Safe(u, i);
    hide Run, Effort, Inserted, SortedInv, Sorted, NeverStale, Safe;
    m, d, k := AloneSorts(u, c, i, once);
  }

  /** Such a call that begins and runs alone after any run, in order or not, puts its node at the right place. */
  lemma {:induction false} NextCallPlaces(s: State, schedule: seq<nat>, i: nat, once: bool)
    returns (c: seq<Ref>, m: nat, d: seq<Ref>, k: nat)
    requires Initial(s) && i < |s.calls|
    requires var x := Run(s, schedule, once).calls[i]; x.pc == Start && x.kind == Ordered
    ensures var u := Run(s, schedule, once);
      && Inv(u, c) && m <= 2 * |c| + 9
      && Inserted(u, Alone(u, i, m, once), c, d, k, i) && RightPlace(u, c, u.calls[i].value, k)
  {
    c := ListIntact(s, schedule, once);
    RunKeepsKind(s, schedule, i, once);
    var u := Run(s, schedule, once);
    EffortBound(u, c, i);
    assert OnWay(u, c, i);
    hide Run, Effort, Inserted, Inv, OnWay, RightPlace;
    m, d, k := AlonePlaces(u, c, i, once);
  }
}
