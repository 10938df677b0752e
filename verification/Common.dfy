/** Definitions shared by the models. */
module Common {

  datatype Option<+T> = None | Some(value: T)

  // ---------------------------------------------------------------- positions in a ring of n slots

  lemma {:induction false} MultipleOf(n: nat, d: int)
    requires 0 < n
    ensures if d <= 0 then n * d <= 0 else n * d >= n
  {
  }

  lemma {:induction false} DivModUnique(x: nat, n: nat, q: nat, r: nat)
    requires 0 < n && x == n * q + r && r < n
    ensures x % n == r && x / n == q
  {
    var d := x / n - q;
    assert n * (x / n) + x % n == x;
    assert n * d == r - x % n;
    MultipleOf(n, d);
    MultipleOf(n, -d);
    assert n * (-d) == -(n * d);
  }

  /** Two positions that share a slot are at least a ring apart. */
  lemma {:induction false} SameSlotApart(j: nat, k: nat, n: nat)
    requires 0 < n && j < k && j % n == k % n
    ensures j + n <= k
  {
    var d := k / n - j / n;
    assert k - j == n * d;
    MultipleOf(n, d);
  }

  /** The slot after that of position k. */
  function NextSlot(slot: nat, n: nat): nat {
    if slot + 1 == n then 0 else slot + 1
  }

  lemma {:induction false} NextSlotIs(k: nat, n: nat)
    requires n > 0
    ensures (k + 1) % n == NextSlot(k % n, n)
    ensures (k + 1) / n == k / n + (if k % n + 1 == n then 1 else 0)
  {
    var q, r := k / n, k % n;
    assert k + 1 == n * q + (r + 1);
    if r + 1 == n {
      assert n * (q + 1) == n * q + n;
      DivModUnique(k + 1, n, q + 1, 0);
    } else {
      DivModUnique(k + 1, n, q, r + 1);
    }
  }

  /** A full turn comes back to the same slot, one lap later. */
  lemma {:induction false} FullTurn(k: nat, n: nat)
    requires n > 0
    ensures (k + n) % n == k % n && (k + n) / n == k / n + 1
  {
    assert n * (k / n + 1) == n * (k / n) + n;
    DivModUnique(k + n, n, k / n + 1, k % n);
  }
}
