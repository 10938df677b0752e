/**
  Shell sort (sorting.c). A pass with gap m insertion-sorts every class of positions that are congruent
  modulo m. The classical theorem is that it does not undo the order established with an earlier gap.
*/
module ShellSort {

  /** Elements k positions apart are in order. */
  ghost predicate Ordered(s: seq<int>, k: nat) {
    forall i, j :: 0 <= i < j < |s| && j == i + k ==> s[i] <= s[j]
  }

  ghost predicate Sorted(s: seq<int>) {
    forall i, j :: 0 <= i < j < |s| ==> s[i] <= s[j]
  }

  predicate Multiple(d: int, m: nat)
    requires m > 0
    decreases d
  {
    d == 0 || (d >= m && Multiple(d - m, m))
  }

  /** How many of s[i], s[i-m], s[i-2m], ... are at most c. */
  function Count(s: seq<int>, i: int, m: nat, c: int): nat
    requires i < |s| && m > 0
    decreases i
  {
    if i < 0 then 0 else Count(s, i - m, m, c) + (if s[i] <= c then 1 else 0)
  }

  /** How many positions i, i-m, i-2m, ... there are. */
  function Places(i: int, m: nat): nat
    requires m > 0
    decreases i
  {
    if i < 0 then 0 else Places(i - m, m) + 1
  }

  /** s and t hold the same elements in every class modulo m: a class is given by its last position. */
  ghost predicate SameClasses(s: seq<int>, t: seq<int>, m: nat)
    requires m > 0
  {
    |s| == |t| && forall i, c :: |s| - m <= i < |s| ==> Count(s, i, m, c) == Count(t, i, m, c)
  }

  // ---------------------------------------------------------------- earlier orders survive

  /** In an m-ordered sequence the elements up to s[i] in its class are all at most c, or none from s[i] on is. */
  lemma {:induction false} OrderedBelow(s: seq<int>, i: int, m: nat, c: int)
    requires m > 0 && 0 <= i < |s| && Ordered(s, m) && s[i] <= c
    ensures Count(s, i, m, c) == Places(i, m)
    decreases i
  {
    if i >= m {
      OrderedBelow(s, i - m, m, c);
    }
  }

  lemma {:induction false} CountAtMost(s: seq<int>, i: int, m: nat, c: int)
    requires m > 0 && i < |s|
    ensures Count(s, i, m, c) <= Places(i, m)
    decreases i
  {
    if i >= 0 {
      CountAtMost(s, i - m, m, c);
    }
  }

  /** From a position i upward by t steps of m. */
  lemma {:induction false} OrderedAbove(s: seq<int>, i: int, top: int, m: nat, c: int)
    requires m > 0 && 0 <= i <= top < |s| && Ordered(s, m) && s[i] > c && Multiple(top - i, m)
    ensures s[top] > c && Count(s, top, m, c) == Count(s, i, m, c)
    decreases top
  {
    if i < top {
      OrderedAbove(s, i, top - m, m, c);
    }
  }

  /** The last position of the class of i. */
  function Top(i: nat, m: nat, n: nat): (r: nat)
    requires m > 0 && i < n
    ensures n - m <= r < n && i <= r && Multiple(r - i, m)
    decreases n - i
  {
    if i + m < n then
      var r := Top(i + m, m, n);
      assert Multiple(r - i, m);
      r
    else i
  }

  /** Shifting a class by k: of the positions x+k, x+k-m, ..., those with a partner k below are bounded by the
      class of x, and the others are Places(x+k) - Places(x) many. */
  lemma {:induction false} CountShifted(s: seq<int>, x: int, k: nat, m: nat, c: int)
    requires m > 0 && x + k < |s| && Ordered(s, k) && k > 0
    ensures Count(s, x + k, m, c) + Places(x, m) <= Count(s, x, m, c) + Places(x + k, m)
    decreases x + k
  {
    if x < 0 {
      CountAtMost(s, x + k, m, c);
    } else {
      CountShifted(s, x - m, k, m, c);
      assert s[x] <= s[x + k];
    }
  }

  /** Going up by the same number of steps adds the same number of places. */
  lemma {:induction false} PlacesUp(x: nat, y: nat, d: nat, m: nat)
    requires m > 0 && Multiple(d, m)
    ensures Places(x + d, m) - Places(x, m) == Places(y + d, m) - Places(y, m)
    decreases d
  {
    if d > 0 {
      PlacesUp(x, y, d - m, m);
    }
  }

  lemma {:induction false} CountUp(s: seq<int>, i: int, top: int, m: nat, c: int)
    requires m > 0 && 0 <= i <= top < |s| && Multiple(top - i, m)
    ensures Count(s, i, m, c) <= Count(s, top, m, c)
    decreases top
  {
    if i < top {
      CountUp(s, i, top - m, m, c);
    }
  }

  lemma {:induction false} TopIsLast(i: nat, x: nat, m: nat, n: nat)
    requires m > 0 && i <= x < n && Multiple(x - i, m)
    ensures x <= Top(i, m, n) && Multiple(Top(i, m, n) - x, m)
    decreases x - i
  {
    if i < x {
      TopIsLast(i + m, x, m, n);
    }
  }

  /** t[j] itself and everything below it in its class are at most c. */
  lemma {:induction false} ManyBelow(s: seq<int>, t: seq<int>, m: nat, j: nat, c: int)
    requires m > 0 && SameClasses(s, t, m) && j < |s| && Ordered(t, m) && t[j] <= c
    ensures Count(s, Top(j, m, |s|), m, c) >= Places(j, m)
  {
    OrderedBelow(t, j, m, c);
    CountUp(t, j, Top(j, m, |s|), m, c);
  }

  /** Only what is below t[i] in its class can be at most c. */
  lemma {:induction false} FewBelow(s: seq<int>, t: seq<int>, m: nat, i: nat, c: int)
    requires m > 0 && SameClasses(s, t, m) && i < |s| && Ordered(t, m) && t[i] > c
    ensures Count(s, Top(i, m, |s|), m, c) < Places(i, m)
  {
    OrderedAbove(t, i, Top(i, m, |s|), m, c);
    CountAtMost(t, i - m, m, c);
  }

  lemma {:induction false} SameLength(s: seq<int>, t: seq<int>, m: nat)
    requires m > 0 && SameClasses(s, t, m)
    ensures |s| == |t|
  {
  }

  lemma {:induction false} PassKeepsPair(s: seq<int>, t: seq<int>, m: nat, k: nat, i: nat)
    requires m > 0 && k > 0 && SameClasses(s, t, m) && i + k < |s|
    requires Ordered(s, k) && Ordered(t, m)
    ensures t[i] <= t[i + k]
  {
    hide Ordered, SameClasses, Count, Places, Multiple, Top;
    SameLength(s, t, m);
    var c := t[i + k];
    var top := Top(i + k, m, |s|);
    ManyBelow(s, t, m, i + k, c);
    // in s each element of the class of i+k has its partner in the class of i
    CountShifted(s, top - k, k, m, c);
    PlacesUp(i, i + k, top - (i + k), m);
    TopIsLast(i, top - k, m, |s|);
    CountUp(s, top - k, Top(i, m, |s|), m, c);
    assert Count(s, Top(i, m, |s|), m, c) >= Places(i, m);
    if t[i] > c {
      FewBelow(s, t, m, i, c);
    }
  }

  /** A pass with gap m, seen from outside - m-ordered result, classes unchanged - keeps any order the sequence
      had with another gap. */
  lemma {:induction false} PassKeepsOrder(s: seq<int>, t: seq<int>, m: nat, k: nat)
    requires m > 0 && k > 0 && SameClasses(s, t, m)
    requires Ordered(s, k) && Ordered(t, m)
    ensures Ordered(t, k)
  {
    forall i, j | 0 <= i < j < |t| && j == i + k ensures t[i] <= t[j] {
      PassKeepsPair(s, t, m, k, i);
    }
  }

  // ---------------------------------------------------------------- the code

  function Swapped(s: seq<int>, i: nat, j: nat): seq<int>
    requires i < |s| && j < |s|
  {
    s[i := s[j]][j := s[i]]
  }

  lemma {:induction false} SwapKeepsCount(s: seq<int>, i: nat, x: int, m: nat, c: int)
    requires m > 0 && i + m < |s| && x < |s| && x != i
    ensures Count(Swapped(s, i, i + m), x, m, c) == Count(s, x, m, c)
    decreases x
  {
    var t := Swapped(s, i, i + m);
    if x == i + m {
      SwapKeepsCount(s, i, i - m, m, c);
      assert Count(s, i, m, c) == Count(s, i - m, m, c) + (if s[i] <= c then 1 else 0);
      assert Count(t, i, m, c) == Count(t, i - m, m, c) + (if t[i] <= c then 1 else 0);
    } else if x >= 0 {
      SwapKeepsCount(s, i, x - m, m, c);
    }
  }

  lemma {:induction false} SwapKeepsClasses(s: seq<int>, t: seq<int>, i: nat, m: nat)
    requires m > 0 && i + m < |t| && SameClasses(s, t, m)
    ensures SameClasses(s, Swapped(t, i, i + m), m)
    ensures multiset(Swapped(t, i, i + m)) == multiset(t)
  {
    var t' := Swapped(t, i, i + m);
    forall x, c | |s| - m <= x < |s| ensures Count(s, x, m, c) == Count(t', x, m, c) {
      SwapKeepsCount(t, i, x, m, c);
    }
    assert t == t[..i] + [t[i]] + t[i + 1..i + m] + [t[i + m]] + t[i + m + 1..];
    assert t' == t[..i] + [t[i + m]] + t[i + 1..i + m] + [t[i]] + t[i + m + 1..];
  }

  /** Positions up to j are in order m apart, except perhaps i and i + m; s[i] is in order with s[i + 2m]. */
  ghost predicate AlmostOrdered(s: seq<int>, m: nat, j: int, i: int) {
    && 0 <= i + m <= j < |s|
    && (forall p, q :: 0 <= p < q <= j && q == p + m && p != i ==> s[p] <= s[q])
    && (0 <= i && i + 2 * m <= j ==> s[i] <= s[i + 2 * m])
  }

  lemma {:induction false} SwapMovesDown(s: seq<int>, m: nat, j: int, i: nat)
    requires m > 0 && AlmostOrdered(s, m, j, i) && s[i + m] < s[i]
    ensures AlmostOrdered(Swapped(s, i, i + m), m, j, i - m)
  {
  }

  /** The first n positions are in order m apart. */
  ghost predicate OrderedUpto(s: seq<int>, m: nat, n: int) {
    forall p, q :: 0 <= p < q < n && q < |s| && q == p + m ==> s[p] <= s[q]
  }

  lemma {:induction false} StartInsertion(s: seq<int>, m: nat, j: nat)
    requires m > 0 && OrderedUpto(s, m, j) && m <= j < |s|
    ensures AlmostOrdered(s, m, j, j - m)
  {
  }

  lemma {:induction false} AlmostInRange(s: seq<int>, m: nat, j: int, i: int)
    requires AlmostOrdered(s, m, j, i)
    ensures 0 <= i + m <= j < |s|
  {
  }

  lemma {:induction false} PrefixGrows(s: seq<int>, m: nat, j: int, i: int)
    requires m > 0 && AlmostOrdered(s, m, j, i) && (i < 0 || s[i + m] >= s[i])
    ensures OrderedUpto(s, m, j + 1)
  {
  }

  /** One pass of shellsort: lines 136 to 149. */
  method ShellPass(a: array<int>, m: nat)
    requires m > 0
    modifies a
    ensures Ordered(a[..], m)
    ensures SameClasses(old(a[..]), a[..], m)
    ensures multiset(a[..]) == multiset(old(a[..]))
  {
    var j := m;
    while j < a.Length
      invariant m <= j
      invariant OrderedUpto(a[..], m, j)
      invariant SameClasses(old(a[..]), a[..], m) && multiset(a[..]) == multiset(old(a[..]))
      decreases a.Length - j
    {
      hide AlmostOrdered, OrderedUpto, SameClasses;
      var i := j - m;
      StartInsertion(a[..], m, j);
      while i >= 0
        invariant AlmostOrdered(a[..], m, j, i)
        invariant SameClasses(old(a[..]), a[..], m) && multiset(a[..]) == multiset(old(a[..]))
      {
        AlmostInRange(a[..], m, j, i);
        if a[i + m] >= a[i] {
          break;
        }
        ghost var s := a[..];
        SwapMovesDown(s, m, j, i);
        SwapKeepsClasses(old(a[..]), s, i, m);
        var mid := a[i];
        a[i] := a[i + m];
        a[i + m] := mid;
        assert a[..] == Swapped(s, i, i + m);
        i := i - m;
      }
      PrefixGrows(a[..], m, j, i);
      j := j + 1;
    }
  }

  lemma {:induction false} GapOneSorts(s: seq<int>, i: nat, j: nat)
    requires Ordered(s, 1) && i <= j < |s|
    ensures s[i] <= s[j]
    decreases j
  {
    if i < j {
      GapOneSorts(s, i, j - 1);
    }
  }

  /** shellsort. The ghost result lists the gaps used; the order of every pass survives all later passes. */
  method ShellSort(a: array<int>) returns (ghost gaps: seq<nat>)
    modifies a
    ensures Sorted(a[..])
    ensures multiset(a[..]) == multiset(old(a[..]))
    ensures forall g :: g in gaps ==> Ordered(a[..], g)
    ensures a.Length > 1 ==> gaps != [] && gaps[0] == a.Length / 2 && gaps[|gaps| - 1] == 1
    ensures forall k :: 0 < k < |gaps| ==> gaps[k] == gaps[k - 1] / 2
  {
    gaps := [];
    var m := a.Length / 2;
    while m > 0
      invariant 0 <= m
      invariant gaps == [] ==> m == a.Length / 2
      invariant gaps != [] ==> gaps[0] == a.Length / 2 && m == gaps[|gaps| - 1] / 2
      invariant forall k :: 0 < k < |gaps| ==> gaps[k] == gaps[k - 1] / 2
      invariant forall g :: g in gaps ==> g > 0 && Ordered(a[..], g)
      invariant multiset(a[..]) == multiset(old(a[..]))
      decreases m
    {
      ghost var before := a[..];
      ShellPass(a, m);
      forall g | g in gaps ensures Ordered(a[..], g) {
        PassKeepsOrder(before, a[..], m, g);
      }
      gaps := gaps + [m];
      m := m / 2;
    }
    if gaps != [] {
      assert gaps[|gaps| - 1] in gaps;
      forall i, j | 0 <= i < j < a.Length ensures a[i] <= a[j] {
        GapOneSorts(a[..], i, j);
      }
    }
  }
}
