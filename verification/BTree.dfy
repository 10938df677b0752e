/**
  The order-5 B-tree of btree.c: insertion with a split on the way back up, the fifth key of an overfull node held
  outside it.

  A node remembers, as ghost fields, its height, the objects of its subtree and the keys below it in order, so that
  "sorted within and across nodes" is: the inorder sequence of the root increases.
*/
module BTree {

  const M: nat := 5

  datatype KeyStatus = Duplicate | Success | InsertIt

  // ---------------------------------------------------------------- sequences of keys

  predicate Increasing(s: seq<int>) {
    forall i, j :: 0 <= i < j < |s| ==> s[i] < s[j]
  }

  /** s with key put before the first greater element. */
  function Ins(s: seq<int>, key: int): (r: seq<int>)
    ensures |r| == |s| + 1
  {
    if s == [] || key < s[0] then [key] + s else [s[0]] + Ins(s[1..], key)
  }

  /** Ins adds key and nothing else. */
  lemma {:induction false} InsElements(s: seq<int>, key: int, x: int)
    ensures x in Ins(s, key) <==> x in s || x == key
  {
    if !(s == [] || key < s[0]) {
      InsElements(s[1..], key, x);
      assert s == [s[0]] + s[1..];
    }
  }

  lemma {:induction false} InsIncreasing(s: seq<int>, key: int)
    requires Increasing(s) && key !in s
    ensures Increasing(Ins(s, key))
  {
    if !(s == [] || key < s[0]) {
      InsIncreasing(s[1..], key);
      forall j | 0 <= j < |Ins(s[1..], key)| ensures s[0] < Ins(s[1..], key)[j] {
        InsElements(s[1..], key, Ins(s[1..], key)[j]);
      }
    }
  }

  lemma {:induction false} InsAfter(a: seq<int>, s: seq<int>, key: int)
    requires forall i :: 0 <= i < |a| ==> a[i] <= key
    ensures Ins(a + s, key) == a + Ins(s, key)
  {
    if a == [] {
      assert a + s == s;
    } else {
      InsAfter(a[1..], s, key);
      assert (a + s)[1..] == a[1..] + s;
    }
  }

  lemma {:induction false} InsBefore(s: seq<int>, b: seq<int>, key: int)
    requires b == [] || key < b[0]
    ensures Ins(s + b, key) == Ins(s, key) + b
  {
    if s == [] {
      assert s + b == b;
    } else if key < s[0] {
      assert [key] + (s + b) == [key] + s + b;
    } else {
      InsBefore(s[1..], b, key);
      assert (s + b)[1..] == s[1..] + b;
    }
  }

  /** Keys and the sequences between them, in order. */
  function Weave(keys: seq<int>, parts: seq<seq<int>>): seq<int>
    requires |parts| == |keys| + 1
  {
    if keys == [] then parts[0] else parts[0] + [keys[0]] + Weave(keys[1..], parts[1..])
  }

  /** A sequence of keys and parts cut at one of its keys. */
  lemma {:induction false} WeaveCut(keys: seq<int>, parts: seq<seq<int>>, k: nat)
    requires |parts| == |keys| + 1 && k < |keys|
    ensures Weave(keys, parts) == Weave(keys[..k], parts[..k + 1]) + [keys[k]] + Weave(keys[k + 1..], parts[k + 1..])
  {
    if k > 0 {
      WeaveCut(keys[1..], parts[1..], k - 1);
      assert keys[1..][..k - 1] == keys[..k][1..];
      assert parts[1..][..k] == parts[..k + 1][1..];
      assert keys[1..][k..] == keys[k + 1..] && parts[1..][k..] == parts[k + 1..];
    }
  }

  /** What comes before part k, and what comes after it. */
  function Before(keys: seq<int>, parts: seq<seq<int>>, k: nat): seq<int>
    requires |parts| == |keys| + 1 && k <= |keys|
  {
    if k == 0 then [] else Weave(keys[..k - 1], parts[..k]) + [keys[k - 1]]
  }

  function After(keys: seq<int>, parts: seq<seq<int>>, k: nat): seq<int>
    requires |parts| == |keys| + 1 && k <= |keys|
  {
    if k == |keys| then [] else [keys[k]] + Weave(keys[k + 1..], parts[k + 1..])
  }

  lemma {:induction false} WeaveFrom(keys: seq<int>, parts: seq<seq<int>>, k: nat)
    requires |parts| == |keys| + 1 && k <= |keys|
    ensures Weave(keys[k..], parts[k..]) == parts[k] + After(keys, parts, k)
  {
    if k < |keys| {
      assert keys[k..][1..] == keys[k + 1..] && parts[k..][1..] == parts[k + 1..];
    }
  }

  lemma {:induction false} WeaveUpTo(keys: seq<int>, parts: seq<seq<int>>, k: nat)
    requires |parts| == |keys| + 1 && k <= |keys|
    ensures Weave(keys, parts) == Before(keys, parts, k) + Weave(keys[k..], parts[k..])
  {
    if k > 0 {
      WeaveCut(keys, parts, k - 1);
      hide Weave;
    } else {
      assert keys[k..] == keys && parts[k..] == parts;
    }
  }

  lemma {:induction false} WeaveAround(keys: seq<int>, parts: seq<seq<int>>, k: nat)
    requires |parts| == |keys| + 1 && k <= |keys|
    ensures Weave(keys, parts) == Before(keys, parts, k) + parts[k] + After(keys, parts, k)
  {
    hide Weave, Before, After;
    WeaveFrom(keys, parts, k);
    WeaveUpTo(keys, parts, k);
  }

  /** pos is where searchPos stops: the keys before it are less than key. */
  predicate Position(keys: seq<int>, key: int, pos: nat) {
    && pos <= |keys| && (forall i :: 0 <= i < pos ==> keys[i] < key)
    && (pos < |keys| ==> key <= keys[pos])
  }

  lemma {:induction false} AroundIncreasing(a: seq<int>, s: seq<int>, b: seq<int>)
    requires Increasing(a + s + b)
    ensures Increasing(a) && Increasing(s) && Increasing(b)
    ensures forall i, j :: 0 <= i < |a| && 0 <= j < |s| ==> a[i] < s[j]
    ensures forall i, j :: 0 <= i < |s| && 0 <= j < |b| ==> s[i] < b[j]
    ensures forall i, j :: 0 <= i < |a| && 0 <= j < |b| ==> a[i] < b[j]
  {
    var w := a + s + b;
    assert forall i :: 0 <= i < |a| ==> w[i] == a[i];
    assert forall i :: 0 <= i < |s| ==> w[|a| + i] == s[i];
    assert forall i :: 0 <= i < |b| ==> w[|a| + |s| + i] == b[i];
  }

  lemma {:induction false} PositionFound(keys: seq<int>, key: int, pos: nat)
    requires Position(keys, key, pos)
    ensures pos <= |keys| && (pos < |keys| && key != keys[pos] ==> key < keys[pos])
  {
  }

  /** Everything before the part where searchPos stops is less than key, everything after it greater. */
  lemma {:induction false} KeyFits(keys: seq<int>, parts: seq<seq<int>>, key: int, pos: nat)
    requires |parts| == |keys| + 1 && Increasing(Weave(keys, parts))
    requires Position(keys, key, pos) && (pos < |keys| ==> key < keys[pos])
    ensures forall i :: 0 <= i < |Before(keys, parts, pos)| ==> Before(keys, parts, pos)[i] < key
    ensures After(keys, parts, pos) == [] || key < After(keys, parts, pos)[0]
    ensures forall i :: 0 <= i < |After(keys, parts, pos)| ==> key < After(keys, parts, pos)[i]
    ensures Increasing(parts[pos])
  {
    var a, b := Before(keys, parts, pos), After(keys, parts, pos);
    WeaveAround(keys, parts, pos);
    AroundIncreasing(a, parts[pos], b);
    if a != [] {
      assert a[|a| - 1] == keys[pos - 1];
    }
    if b != [] {
      assert b[0] == keys[pos];
    }
  }

  lemma {:induction false} InsIntoPart(keys: seq<int>, parts: seq<seq<int>>, key: int, pos: nat)
    requires |parts| == |keys| + 1 && Increasing(Weave(keys, parts))
    requires Position(keys, key, pos) && (pos < |keys| ==> key < keys[pos])
    ensures Ins(Weave(keys, parts), key) == Before(keys, parts, pos) + Ins(parts[pos], key) + After(keys, parts, pos)
    ensures key in Weave(keys, parts) <==> key in parts[pos]
    ensures Increasing(parts[pos])
  {
    var a, s, b := Before(keys, parts, pos), parts[pos], After(keys, parts, pos);
    KeyFits(keys, parts, key, pos);
    WeaveAround(keys, parts, pos);
    hide Before, After, Weave;
    assert a + s + b == a + (s + b);
    InsAfter(a, s + b, key);
    InsBefore(s, b, key);
    assert a + (Ins(s, key) + b) == a + Ins(s, key) + b;
  }

  /** A key at a separator is in the whole. */
  lemma {:induction false} KeyInWeave(keys: seq<int>, parts: seq<seq<int>>, pos: nat)
    requires |parts| == |keys| + 1 && pos < |keys|
    ensures keys[pos] in Weave(keys, parts)
  {
    WeaveCut(keys, parts, pos);
  }

  lemma {:induction false} WeaveReplace(keys: seq<int>, parts: seq<seq<int>>, pos: nat, s: seq<int>)
    requires |parts| == |keys| + 1 && pos <= |keys|
    ensures Weave(keys, parts[pos := s]) == Before(keys, parts, pos) + s + After(keys, parts, pos)
  {
    var ps := parts[pos := s];
    WeaveAround(keys, ps, pos);
    assert ps[..pos] == parts[..pos] && ps[pos + 1..] == parts[pos + 1..];
  }

  lemma {:induction false} SameBefore(keys: seq<int>, parts: seq<seq<int>>, ks: seq<int>, ps: seq<seq<int>>, pos: nat)
    requires |parts| == |keys| + 1 && |ps| == |ks| + 1 && pos <= |keys| && pos <= |ks|
    requires ks[..pos] == keys[..pos] && ps[..pos] == parts[..pos]
    ensures Before(ks, ps, pos) == Before(keys, parts, pos)
  {
    if pos > 0 {
      assert ks[..pos - 1] == ks[..pos][..pos - 1];
      assert keys[..pos - 1] == keys[..pos][..pos - 1];
      assert ks[pos - 1] == ks[..pos][pos - 1] == keys[pos - 1];
    }
  }

  /** One part replaced by two with a key between them. */
  lemma {:induction false} WeaveSplit(keys: seq<int>, parts: seq<seq<int>>, pos: nat, l: seq<int>, up: int, r: seq<int>)
    requires |parts| == |keys| + 1 && pos <= |keys|
    ensures Weave(keys[..pos] + [up] + keys[pos..], parts[..pos] + [l, r] + parts[pos + 1..])
         == Before(keys, parts, pos) + (l + [up] + r) + After(keys, parts, pos)
  {
    var ks, ps := keys[..pos] + [up] + keys[pos..], parts[..pos] + [l, r] + parts[pos + 1..];
    WeaveAround(ks, ps, pos);
    assert ps[pos] == l;
    SameBefore(keys, parts, ks, ps, pos);
    assert After(ks, ps, pos) == [up] + Weave(keys[pos..], [r] + parts[pos + 1..]) by {
      assert ks[pos + 1..] == keys[pos..] && ps[pos + 1..] == [r] + parts[pos + 1..];
    }
    WeaveFrom(keys, parts[pos := r], pos);
    assert parts[pos := r][pos..] == [r] + parts[pos + 1..];
    assert After(keys, parts[pos := r], pos) == After(keys, parts, pos) by {
      assert parts[pos := r][pos + 1..] == parts[pos + 1..];
    }
    hide Weave, Before, After;
  }

  // ---------------------------------------------------------------- nodes

  /** A child: at least two keys, and the keys below it are those of `part`. */
  ghost predicate Kid(k: Node?, part: seq<int>, h: nat, s: set<object>)
    reads s
    decreases h, 1
  {
    && k != null && k in s && k.Repr <= s && k.height == h
    && k.Valid() && k.inorder == part && 2 <= k.n
  }

  /** The children of a node, all of height h (none at all for h = 0), apart from each other and inside s. */
  ghost predicate Kids(kids: seq<Node?>, parts: seq<seq<int>>, h: nat, s: set<object>)
    reads s
    decreases h, 2
  {
    && |parts| == |kids|
    && (h == 0 ==> forall i :: 0 <= i < |kids| ==> kids[i] == null && parts[i] == [])
    && (h > 0 ==> forall i :: 0 <= i < |kids| ==> Kid(kids[i], parts[i], h, s))
    && (h > 0 ==> forall i, j :: 0 <= i < j < |kids| ==> kids[i].Repr !! kids[j].Repr)
  }

  /** The objects below a row of children. */
  ghost function Objects(kids: seq<Node?>): set<object>
    reads set i | 0 <= i < |kids| :: kids[i]
  {
    set i, o | 0 <= i < |kids| && kids[i] != null && o in kids[i].Repr :: o
  }

  lemma {:induction false} KidInRepr(k: Node?, part: seq<int>, h: nat, s: set<object>)
    requires Kid(k, part, h, s)
    ensures k in k.Repr
  {
  }

  lemma {:induction false} KidsPart(kids: seq<Node?>, parts: seq<seq<int>>, h: nat, s: set<object>, a: nat, b: nat)
    requires Kids(kids, parts, h, s) && a <= b <= |kids|
    ensures Objects(kids[a..b]) <= s && Kids(kids[a..b], parts[a..b], h, Objects(kids[a..b]))
  {
    hide Node.Valid;
    if h > 0 {
      var ks, ps, t := kids[a..b], parts[a..b], Objects(kids[a..b]);
      forall i | 0 <= i < |ks| ensures Kid(ks[i], ps[i], h, t) {
        assert Kid(kids[a + i], parts[a + i], h, s);
        assert ks[i] in ks[i].Repr by { KidInRepr(ks[i], ps[i], h, s); }
      }
      forall i, j | 0 <= i < j < |ks| ensures ks[i].Repr !! ks[j].Repr {
        assert kids[a + i].Repr !! kids[a + j].Repr;
      }
    }
  }

  /** A row of children cut in two: the two parts have no object in common. */
  lemma {:induction false} KidsCut(kids: seq<Node?>, parts: seq<seq<int>>, h: nat, s: set<object>, a: nat)
    requires Kids(kids, parts, h, s) && a <= |kids|
    ensures Objects(kids[..a]) <= s && Kids(kids[..a], parts[..a], h, Objects(kids[..a]))
    ensures Objects(kids[a..]) <= s && Kids(kids[a..], parts[a..], h, Objects(kids[a..]))
    ensures Objects(kids[..a]) !! Objects(kids[a..])
  {
    hide Kid;
    KidsPart(kids, parts, h, s, 0, a);
    KidsPart(kids, parts, h, s, a, |kids|);
    assert kids[0..a] == kids[..a] && parts[0..a] == parts[..a];
    assert kids[a..|kids|] == kids[a..] && parts[a..|kids|] == parts[a..];
  }

  /** Five keys and six children: the row on either side of the middle key. */
  lemma {:induction false} CutInTwo(ks: seq<int>, kids: seq<Node?>, parts: seq<seq<int>>, h: nat, s: set<object>)
    requires |ks| == M && |parts| == M + 1 && Kids(kids, parts, h, s)
    ensures |kids| == M + 1 && Objects(kids[..3]) <= s && Objects(kids[3..]) <= s
    ensures Objects(kids[..3]) !! Objects(kids[3..])
    ensures Kids(kids[..3], parts[..3], h, Objects(kids[..3])) && Kids(kids[3..], parts[3..], h, Objects(kids[3..]))
    ensures Weave(ks, parts) == Weave(ks[..2], parts[..3]) + [ks[2]] + Weave(ks[3..], parts[3..])
  {
    hide Objects, Weave, Kid;
    WeaveCut(ks, parts, 2);
    KidsCut(kids, parts, h, s, 3);
  }

  class Node {
    var n: nat
    var keys: seq<int>
    var p: seq<Node?>

    ghost var height: nat
    ghost var parts: seq<seq<int>>
    ghost var inorder: seq<int>
    ghost var Repr: set<object>

    constructor ()
      ensures |keys| == M - 1 && |p| == M && fresh(this)
    {
      keys, p := [0, 0, 0, 0], [null, null, null, null, null];
    }

    /** 1 to 4 keys, one more child than keys, children one level lower: the order-5 invariant of a root. */
    ghost predicate Valid()
      reads this, Repr
      decreases height, 0
    {
      && this in Repr && |keys| == M - 1 && |p| == M && 1 <= n <= M - 1 && height > 0 && |parts| == n + 1
      && Kids(p[..n + 1], parts, height - 1, Repr - {this})
      && inorder == Weave(keys[..n], parts)
    }

    /**
      Keys pos.. and the children after them move one place right, as far as place `from`, and the new key and child
      take the room.
    */
    method MakeRoom(from: nat, pos: nat, newKey: int, newPtr: Node?)
      requires |keys| == M - 1 && |p| == M && pos <= from < M - 1
      modifies this`keys, this`p
      ensures keys == old(keys[..pos] + [newKey] + keys[pos..from] + keys[from + 1..])
      ensures p == old(p[..pos + 1] + [newPtr] + p[pos + 1..from + 1] + p[from + 2..])
    {
      var i := from;
      while i > pos
        invariant pos <= i <= from && |keys| == M - 1 && |p| == M
        invariant forall j :: 0 <= j < |keys| ==> keys[j] == if i < j <= from then old(keys[j - 1]) else old(keys[j])
        invariant forall j :: 0 <= j < |p| ==> p[j] == if i + 1 < j <= from + 1 then old(p[j - 1]) else old(p[j])
      {
        keys := keys[i := keys[i - 1]];
        p := p[i + 1 := p[i]];
        i := i - 1;
      }
      keys := keys[pos := newKey];
      p := p[pos + 1 := newPtr];
      ghost var ks := old(keys[..pos] + [newKey] + keys[pos..from] + keys[from + 1..]);
      ghost var ps := old(p[..pos + 1] + [newPtr] + p[pos + 1..from + 1] + p[from + 2..]);
      assert |keys| == |ks| && forall j :: 0 <= j < |ks| ==> keys[j] == ks[j];
      assert |p| == |ps| && forall j :: 0 <= j < |ps| ==> p[j] == ps[j];
    }

    /** Room for one more key: the node takes it. */
    method TakeIn(pos: nat, newKey: int, newPtr: Node?, ghost parts': seq<seq<int>>, ghost s: set<object>)
      requires |keys| == M - 1 && |p| == M && pos <= n < M - 1 && height > 0 && this !in s
      requires Kids(p[..pos + 1] + [newPtr] + p[pos + 1..n + 1], parts', height - 1, s) && |parts'| == n + 2
      modifies this
      ensures Valid() && n == old(n) + 1 && height == old(height) && Repr == s + {this}
      ensures inorder == old(Weave(keys[..pos] + [newKey] + keys[pos..n], parts'))
    {
      hide Kids, Weave;
      MakeRoom(n, pos, newKey, newPtr);
      n := n + 1;
      assert keys[..n] == old(keys[..pos] + [newKey] + keys[pos..n]);
      assert p[..n + 1] == old(p[..pos + 1] + [newPtr] + p[pos + 1..n + 1]);
      parts, inorder, Repr := parts', Weave(keys[..n], parts'), s + {this};
      assert Repr - {this} == s;
    }

    /** The fifth key and the sixth child: in their places, with the last of each held outside the node. */
    method OverFill(pos: nat, newKey: int, newPtr: Node?) returns (lastKey: int, lastPtr: Node?)
      requires |keys| == M - 1 && |p| == M && pos <= M - 1
      modifies this`keys, this`p
      ensures |keys| == M - 1 && |p| == M
      ensures keys + [lastKey] == old(keys[..pos] + [newKey] + keys[pos..])
      ensures p + [lastPtr] == old(p[..pos + 1] + [newPtr] + p[pos + 1..])
    {
      if pos == M - 1 {
        lastKey, lastPtr := newKey, newPtr;
      } else {
        lastKey, lastPtr := keys[M - 2], p[M - 1];
        MakeRoom(M - 2, pos, newKey, newPtr);
      }
    }

    /** Two keys stay, the middle one goes up, a new node takes the other two. */
    method Halve(lastKey: int, lastPtr: Node?) returns (upKey: int, newnode: Node)
      requires |keys| == M - 1 && |p| == M && n == M - 1
      modifies this`n
      ensures fresh(newnode) && n == newnode.n == 2 && |newnode.keys| == M - 1 && |newnode.p| == M
      ensures upKey == keys[2]
      ensures newnode.keys[..2] == keys[3..] + [lastKey] && newnode.p[..3] == p[3..] + [lastPtr]
    {
      var splitPos := (M - 1) / 2;
      upKey := keys[splitPos];
      newnode := new Node();
      n := splitPos;
      newnode.n := M - 1 - splitPos;
      var i := 0;
      while i < newnode.n
        invariant 0 <= i <= newnode.n == 2 && |newnode.keys| == M - 1 && |newnode.p| == M && n == 2
        invariant i > 0 ==> newnode.keys[0] == keys[3] && newnode.p[0] == p[3]
        invariant i > 1 ==> newnode.keys[1] == lastKey && newnode.p[1] == p[4]
      {
        newnode.p := newnode.p[i := p[i + splitPos + 1]];
        if i < newnode.n - 1 {
          newnode.keys := newnode.keys[i := keys[i + splitPos + 1]];
        } else {
          newnode.keys := newnode.keys[i := lastKey];
        }
        i := i + 1;
      }
      newnode.p := newnode.p[newnode.n := lastPtr];
    }

    /** No room for one more key: the node splits. */
    method Split(pos: nat, newKey: int, newPtr: Node?, ghost parts': seq<seq<int>>, ghost s: set<object>)
      returns (upKey: int, newnode: Node)
      requires |keys| == M - 1 && |p| == M && pos <= n == M - 1 && height > 0 && this !in s
      requires Kids(p[..pos + 1] + [newPtr] + p[pos + 1..], parts', height - 1, s) && |parts'| == M + 1
      modifies this
      ensures Valid() && newnode.Valid() && fresh(newnode) && n == newnode.n == 2
      ensures height == old(height) == newnode.height
      ensures Repr <= s + {this} && newnode.Repr <= s + {newnode} && Repr !! newnode.Repr
      ensures inorder + [upKey] + newnode.inorder == old(Weave(keys[..pos] + [newKey] + keys[pos..], parts'))
    {
      hide Kids, Weave, Kid, Objects;
      ghost var ks, ps, h := keys[..pos] + [newKey] + keys[pos..], p[..pos + 1] + [newPtr] + p[pos + 1..], height - 1;
      ghost var t0, t1 := Objects(ps[..3]), Objects(ps[3..]);
      CutInTwo(ks, ps, parts', h, s);
      var lastKey, lastPtr := OverFill(pos, newKey, newPtr);
      upKey, newnode := Halve(lastKey, lastPtr);
      assert keys[..2] == ks[..2] && newnode.keys[..2] == ks[3..] && upKey == ks[2];
      assert p[..3] == ps[..3] && newnode.p[..3] == ps[3..];
      parts, newnode.parts := parts'[..3], parts'[3..];
      newnode.height := height;
      inorder, newnode.inorder := Weave(keys[..2], parts), Weave(newnode.keys[..2], newnode.parts);
      Repr, newnode.Repr := t0 + {this}, t1 + {newnode};
      assert Repr - {this} == t0 && newnode.Repr - {newnode} == t1;
    }
  }

  /** The place of the first key not less than `key`. */
  method SearchPos(key: int, keyArr: seq<int>, n: nat) returns (pos: nat)
    requires n <= |keyArr|
    ensures Position(keyArr[..n], key, pos)
  {
    pos := 0;
    while pos < n && key > keyArr[pos]
      invariant pos <= n && forall i :: 0 <= i < pos ==> keyArr[i] < key
    {
      pos := pos + 1;
    }
  }

  // ---------------------------------------------------------------- a row with one child changed

  ghost function InorderOf(k: Node?): seq<int>
    reads k
  {
    if k == null then [] else k.inorder
  }

  ghost function ReprOf(k: Node?): set<object>
    reads k
  {
    if k == null then {} else k.Repr
  }

  /** All children but the one at pos are in order, and apart from the objects in `taken`. */
  ghost predicate Others(kids: seq<Node?>, parts: seq<seq<int>>, h: nat, s: set<object>, pos: nat, taken: set<object>)
    reads s
  {
    && |parts| == |kids| && pos < |kids|
    && (h == 0 ==> forall i :: 0 <= i < |kids| ==> kids[i] == null && parts[i] == [])
    && (h > 0 ==> forall i :: 0 <= i < |kids| && i != pos ==> Kid(kids[i], parts[i], h, s) && kids[i].Repr !! taken)
    && (h > 0 ==> forall i, j :: 0 <= i < j < |kids| && i != pos && j != pos ==> kids[i].Repr !! kids[j].Repr)
  }

  lemma {:induction false} ChangedRow(kids: seq<Node?>, parts: seq<seq<int>>, h: nat, s: set<object>, pos: nat)
    requires h > 0 && pos < |kids| && Kid(kids[pos], InorderOf(kids[pos]), h, s)
    requires Others(kids, parts, h, s, pos, kids[pos].Repr)
    ensures Kids(kids, parts[pos := InorderOf(kids[pos])], h, s)
  {
    hide Kid;
    var ps := parts[pos := InorderOf(kids[pos])];
    forall i | 0 <= i < |kids| ensures Kid(kids[i], ps[i], h, s) {
      assert i != pos ==> ps[i] == parts[i];
    }
  }

  /** The row with a new child r to the right of the one at pos. */
  lemma {:induction false} WidenedRow(kids: seq<Node?>, parts: seq<seq<int>>, h: nat, s: set<object>, pos: nat,
                                      r: Node?)
    requires pos < |kids| && Others(kids, parts, h, s, pos, ReprOf(kids[pos]) + ReprOf(r))
    requires if h == 0 then r == null else
      Kid(kids[pos], InorderOf(kids[pos]), h, s) && Kid(r, InorderOf(r), h, s) && kids[pos].Repr !! r.Repr
    ensures Kids(kids[..pos + 1] + [r] + kids[pos + 1..],
                 parts[..pos] + [InorderOf(kids[pos]), InorderOf(r)] + parts[pos + 1..],
                 h, s)
  {
    hide Node.Valid;
    var ks := kids[..pos + 1] + [r] + kids[pos + 1..];
    var ps := parts[..pos] + [InorderOf(kids[pos]), InorderOf(r)] + parts[pos + 1..];
    if h > 0 {
      forall i | 0 <= i < |ks| ensures Kid(ks[i], ps[i], h, s) && ks[i] != null {
        assert i > pos + 1 ==> ks[i] == kids[i - 1] && ps[i] == parts[i - 1];
      }
      forall i, j | 0 <= i < j < |ks| ensures ks[i].Repr !! ks[j].Repr {
        var i0, j0 := if i > pos then i - 1 else i, if j > pos then j - 1 else j;
        assert i != pos + 1 ==> ks[i] == kids[i0];
        assert j != pos + 1 ==> ks[j] == kids[j0];
      }
    }
  }

  // ---------------------------------------------------------------- insertion

  /** The key that comes up from child pos belongs at place pos. */
  lemma {:induction false} SamePlace(keys: seq<int>, parts: seq<seq<int>>, key: int, pos: nat, newKey: int)
    requires |parts| == |keys| + 1 && Increasing(Weave(keys, parts))
    requires Position(keys, key, pos) && (pos < |keys| ==> key < keys[pos])
    requires newKey in Ins(parts[pos], key)
    ensures Position(keys, newKey, pos) && (pos < |keys| ==> newKey < keys[pos])
  {
    InsElements(parts[pos], key, newKey);
    var a, b := Before(keys, parts, pos), After(keys, parts, pos);
    KeyFits(keys, parts, key, pos);
    WeaveAround(keys, parts, pos);
    AroundIncreasing(a, parts[pos], b);
    if newKey != key {
      var j :| 0 <= j < |parts[pos]| && parts[pos][j] == newKey;
      forall i | 0 <= i < pos ensures keys[i] < newKey {
        if i < pos - 1 {
          KeyInWeave(keys[..pos - 1], parts[..pos], i);
        }
        assert keys[i] in a;
      }
      assert pos < |keys| ==> b[0] == keys[pos];
    }
  }

  /** The whole with key inserted, when the part has taken it in. */
  lemma {:induction false} InsReplaced(keys: seq<int>, parts: seq<seq<int>>, key: int, pos: nat)
    requires |parts| == |keys| + 1 && Increasing(Weave(keys, parts))
    requires Position(keys, key, pos) && (pos < |keys| ==> key < keys[pos])
    ensures Weave(keys, parts[pos := Ins(parts[pos], key)]) == Ins(Weave(keys, parts), key)
  {
    hide Ins, Weave, Before, After;
    InsIntoPart(keys, parts, key, pos);
    WeaveReplace(keys, parts, pos, Ins(parts[pos], key));
  }

  /** The whole with key inserted, when the part has come apart at newKey. */
  lemma {:induction false} InsSplit(keys: seq<int>, parts: seq<seq<int>>, key: int, pos: nat, l: seq<int>,
                                    newKey: int, r: seq<int>)
    requires |parts| == |keys| + 1 && Increasing(Weave(keys, parts))
    requires Position(keys, key, pos) && (pos < |keys| ==> key < keys[pos])
    requires l + [newKey] + r == Ins(parts[pos], key)
    ensures Weave(keys[..pos] + [newKey] + keys[pos..], parts[..pos] + [l, r] + parts[pos + 1..])
         == Ins(Weave(keys, parts), key)
    ensures Position(keys, newKey, pos) && (pos < |keys| ==> newKey < keys[pos])
  {
    hide Ins, Weave, Before, After;
    InsIntoPart(keys, parts, key, pos);
    WeaveSplit(keys, parts, pos, l, newKey, r);
    assert newKey in l + [newKey] + r;
    SamePlace(keys, parts, key, pos, newKey);
  }

  /** The child at pos, if there is one, can be inserted into. */
  lemma {:induction false} ChildReady(ptr: Node, pos: nat)
    requires ptr.Valid() && pos <= ptr.n && pos < |ptr.parts| && Increasing(ptr.parts[pos])
    ensures var c := ptr.p[pos];
      && ptr !in ReprOf(c) && ReprOf(c) <= ptr.Repr && InorderOf(c) == ptr.parts[pos]
      && (c == null <==> ptr.height == 1)
      && (c != null ==> c.Valid() && Increasing(c.inorder) && c.height == ptr.height - 1 && 2 <= c.n)
  {
    assert ptr.p[..ptr.n + 1][pos] == ptr.p[pos];
    if ptr.height > 1 {
      assert Kid(ptr.p[pos], ptr.parts[pos], ptr.height - 1, ptr.Repr - {ptr});
    }
  }

  lemma {:induction false} Opened(ptr: Node)
    requires ptr.Valid()
    ensures ptr in ptr.Repr && |ptr.keys| == M - 1 && |ptr.p| == M && 1 <= ptr.n <= M - 1 && ptr.height > 0
    ensures |ptr.parts| == ptr.n + 1 && ptr.inorder == Weave(ptr.keys[..ptr.n], ptr.parts)
    ensures Kids(ptr.p[..ptr.n + 1], ptr.parts, ptr.height - 1, ptr.Repr - {ptr})
  {
  }

  lemma {:induction false} Descend(ptr: Node, key: int, pos: nat)
    requires ptr.Valid() && Increasing(ptr.inorder) && Position(ptr.keys[..ptr.n], key, pos) && pos <= ptr.n
    requires pos < ptr.n ==> key != ptr.keys[pos]
    ensures var c := ptr.p[pos];
      && ptr !in ReprOf(c) && ReprOf(c) <= ptr.Repr - {ptr}
      && (c != null ==> c.Valid() && Increasing(c.inorder) && c.height == ptr.height - 1)
      && (key in ptr.inorder <==> key in ptr.parts[pos])
      && ptr.p[..ptr.n + 1][pos] == c
  {
    Opened(ptr);
    PositionFound(ptr.keys[..ptr.n], key, pos);
    InsIntoPart(ptr.keys[..ptr.n], ptr.parts, key, pos);
    ChildReady(ptr, pos);
  }

  /** The part of insertHelper after the recursive call has brought up a key: the node takes it or splits. */
  method TakeUp(ptr: Node, pos: nat, newKey: int, newPtr: Node?, ghost ks: seq<int>, ghost kids: seq<Node?>,
                ghost parts': seq<seq<int>>, ghost s': set<object>)
    returns (status: KeyStatus, upKey: int, newnode: Node?)
    requires |ptr.keys| == M - 1 && |ptr.p| == M && pos <= ptr.n <= M - 1 && ptr.height > 0 && ptr !in s'
    requires ks == ptr.keys[..ptr.n] && kids == ptr.p[..ptr.n + 1]
    requires Kids(kids[..pos + 1] + [newPtr] + kids[pos + 1..], parts', ptr.height - 1, s') && |parts'| == ptr.n + 2
    requires Position(ks, newKey, pos) && (pos < |ks| ==> newKey < ks[pos])
    modifies ptr
    ensures ptr.Valid() && ptr.height == old(ptr.height) && ptr.Repr <= s' + {ptr} && status != Duplicate
    ensures status == Success ==>
      newnode == null && ptr.n == old(ptr.n) + 1 && ptr.inorder == Weave(ks[..pos] + [newKey] + ks[pos..], parts')
    ensures status == InsertIt ==>
      && newnode != null && newnode.Valid() && newnode.height == ptr.height && ptr.n == newnode.n == 2
      && newnode.Repr <= s' + {newnode} && fresh(newnode) && ptr.Repr !! newnode.Repr
      && ptr.inorder + [upKey] + newnode.inorder == Weave(ks[..pos] + [newKey] + ks[pos..], parts')
  {
    hide Kids, Weave;
    var n := ptr.n;
    assert ks[..pos] == ptr.keys[..pos] && ks[pos..] == ptr.keys[pos..n];
    assert kids[..pos + 1] == ptr.p[..pos + 1] && kids[pos + 1..] == ptr.p[pos + 1..n + 1];
    if n < M - 1 {
      var pos' := SearchPos(newKey, ptr.keys, n);
      assert pos' == pos;
      ptr.TakeIn(pos', newKey, newPtr, parts', s');
      return Success, 0, null;
    }
    assert ptr.p[pos + 1..n + 1] == ptr.p[pos + 1..] && ptr.keys[pos..n] == ptr.keys[pos..];
    upKey, newnode := ptr.Split(pos, newKey, newPtr, parts', s');
    status := InsertIt;
  }

  /** The ghost fields of a node after a change below it. */
  ghost method Refresh(ptr: Node, parts': seq<seq<int>>, s': set<object>)
    requires |ptr.keys| == M - 1 && |ptr.p| == M && 1 <= ptr.n <= M - 1 && ptr.height > 0 && |parts'| == ptr.n + 1
    requires Kids(ptr.p[..ptr.n + 1], parts', ptr.height - 1, s') && ptr !in s'
    modifies ptr`parts, ptr`inorder, ptr`Repr
    ensures ptr.Valid() && ptr.inorder == Weave(ptr.keys[..ptr.n], parts') && ptr.Repr == s' + {ptr}
  {
    hide Kids, Weave;
    ptr.parts, ptr.inorder, ptr.Repr := parts', Weave(ptr.keys[..ptr.n], parts'), s' + {ptr};
    assert ptr.Repr - {ptr} == s';
  }

  /** insertHelper from the return of the recursive call on; mid is what the child now holds. */
  method AfterCall(ptr: Node, key: int, pos: nat, value: KeyStatus, newKey: int, newPtr: Node?, ghost ks: seq<int>,
                   ghost kids: seq<Node?>, ghost mid: seq<int>, ghost s': set<object>)
    returns (status: KeyStatus, upKey: int, newnode: Node?)
    requires |ptr.keys| == M - 1 && |ptr.p| == M && pos <= ptr.n <= M - 1 && 1 <= ptr.n && ptr.height > 0 && ptr !in s'
    requires ks == ptr.keys[..ptr.n] && kids == ptr.p[..ptr.n + 1] && |ptr.parts| == ptr.n + 1
    requires ptr.inorder == Weave(ks, ptr.parts) && Increasing(ptr.inorder)
    requires Position(ks, key, pos) && (pos < |ks| ==> key < ks[pos])
    requires value == Duplicate ==> mid == ptr.parts[pos]
    requires value == Success ==> mid == Ins(ptr.parts[pos], key)
    requires value != InsertIt ==> Kids(kids, ptr.parts[pos := mid], ptr.height - 1, s')
    requires value == InsertIt ==>
      && mid + [newKey] + InorderOf(newPtr) == Ins(ptr.parts[pos], key)
      && Kids(kids[..pos + 1] + [newPtr] + kids[pos + 1..],
              ptr.parts[..pos] + [mid, InorderOf(newPtr)] + ptr.parts[pos + 1..], ptr.height - 1, s')
    modifies ptr
    ensures ptr.Valid() && ptr.height == old(ptr.height) && ptr.Repr <= s' + {ptr}
    ensures status == Duplicate <==> value == Duplicate
    ensures status == Duplicate ==> ptr.inorder == old(ptr.inorder) && ptr.n == old(ptr.n)
    ensures status == Success ==> ptr.inorder == Ins(old(ptr.inorder), key) && ptr.n >= old(ptr.n)
    ensures status != InsertIt ==> newnode == null
    ensures status == InsertIt ==>
      && newnode != null && newnode.Valid() && newnode.height == ptr.height && ptr.n == newnode.n == 2
      && newnode.Repr <= s' + {newnode} && fresh(newnode) && ptr.Repr !! newnode.Repr
      && ptr.inorder + [upKey] + newnode.inorder == Ins(old(ptr.inorder), key)
  {
    hide Kids, Kid, Weave, Increasing, Ins, Position, Node.Valid;
    ghost var parts := ptr.parts;
    if value != InsertIt {
      assert parts[pos := parts[pos]] == parts;
      InsReplaced(ks, parts, key, pos);
      Refresh(ptr, parts[pos := mid], s');
      return value, 0, null;
    }
    InsSplit(ks, parts, key, pos, mid, newKey, InorderOf(newPtr));
    status, upKey, newnode := TakeUp(ptr, pos, newKey, newPtr, ks, kids,
                                     parts[..pos] + [mid, InorderOf(newPtr)] + parts[pos + 1..], s');
  }

  method InsertHelper(ptr: Node?, key: int) returns (status: KeyStatus, upKey: int, newnode: Node?)
    requires ptr != null ==> ptr.Valid() && Increasing(ptr.inorder)
    modifies ReprOf(ptr)
    decreases if ptr == null then 0 else ptr.height, 0
    ensures ptr != null ==> ptr.Valid() && ptr.height == old(ptr.height) && fresh(ptr.Repr - old(ptr.Repr))
    ensures status == Duplicate <==> key in old(InorderOf(ptr))
    ensures status == Duplicate ==> ptr != null && ptr.inorder == old(ptr.inorder) && ptr.n == old(ptr.n)
    ensures status == Success ==> ptr != null && ptr.inorder == Ins(old(ptr.inorder), key) && ptr.n >= old(ptr.n)
    ensures status != InsertIt || ptr == null ==> newnode == null
    ensures status == InsertIt ==> InorderOf(ptr) + [upKey] + InorderOf(newnode) == Ins(old(InorderOf(ptr)), key)
    ensures status == InsertIt && ptr != null ==>
      && newnode != null && newnode.Valid() && newnode.height == ptr.height && ptr.n >= 2 && newnode.n >= 2
      && fresh(newnode.Repr - old(ptr.Repr)) && ptr.Repr !! newnode.Repr
  {
    if ptr == null {
      return InsertIt, key, null;
    }
    Opened(ptr);
    hide Kids, Kid, Weave, Increasing, Ins, Position, Node.Valid;
    ghost var ks, parts, kids := ptr.keys[..ptr.n], ptr.parts, ptr.p[..ptr.n + 1];
    ghost var h, s := ptr.height - 1, ptr.Repr - {ptr};
    var n := ptr.n;
    var pos := SearchPos(key, ptr.keys, n);
    PositionFound(ks, key, pos);
    if pos < n && key == ptr.keys[pos] {
      KeyInWeave(ks, parts, pos);
      return Duplicate, 0, null;
    }
    Descend(ptr, key, pos);
    var value, newKey, newPtr;
    ghost var s';
    value, newKey, newPtr, s' := InsertBelow(kids, parts, h, s, ptr.p[pos], pos, key);
    assert fresh(s' - old(ptr.Repr));
    status, upKey, newnode := AfterCall(ptr, key, pos, value, newKey, newPtr, ks, kids, InorderOf(ptr.p[pos]), s');
  }

  /** The recursive call, and what it means for the row of children it is made from. */
  method InsertBelow(ghost kids: seq<Node?>, ghost parts: seq<seq<int>>, ghost h: nat, ghost s: set<object>, c: Node?,
                     ghost pos: nat, key: int)
    returns (status: KeyStatus, newKey: int, newPtr: Node?, ghost s': set<object>)
    requires Kids(kids, parts, h, s) && pos < |kids| && c == kids[pos]
    requires c != null ==> c.Valid() && Increasing(c.inorder) && c.Repr <= s
    modifies ReprOf(c)
    decreases h, 1
    ensures status == Duplicate <==> key in parts[pos]
    ensures status == Duplicate ==> InorderOf(c) == parts[pos]
    ensures status == Success ==> InorderOf(c) == Ins(parts[pos], key)
    ensures status != InsertIt ==> Kids(kids, parts[pos := InorderOf(c)], h, s')
    ensures status == InsertIt ==>
      && InorderOf(c) + [newKey] + InorderOf(newPtr) == Ins(parts[pos], key)
      && Kids(kids[..pos + 1] + [newPtr] + kids[pos + 1..],
              parts[..pos] + [InorderOf(c), InorderOf(newPtr)] + parts[pos + 1..], h, s')
    ensures s <= s' && fresh(s' - s)
  {
    assert h > 0 ==> Kid(c, parts[pos], h, s);
    status, newKey, newPtr := InsertHelper(c, key);
    s' := s + ReprOf(c) + ReprOf(newPtr);
    if h > 0 {
      forall i | 0 <= i < |kids| && i != pos
        ensures Kid(kids[i], parts[i], h, s') && kids[i].Repr == old(kids[i].Repr) && kids[i].Repr <= s
        ensures kids[i].Repr !! c.Repr
      {
        var k := kids[i];
        assert old(Kid(k, parts[i], h, s));
        assert old(k.Valid()) && k in old(k.Repr);
      }
    }
    hide Kids, Kid;
    if status == InsertIt {
      WidenedRow(kids, parts, h, s', pos, newPtr);
    } else {
      ChangedRow(kids, parts, h, s', pos);
    }
  }

  lemma {:induction false} OneKey(key: int, parts: seq<seq<int>>)
    requires |parts| == 2
    ensures Weave([key], parts) == parts[0] + [key] + parts[1]
  {
    assert Weave([key][1..], parts[1..]) == parts[1];
  }

  lemma {:induction false} TwoKids(kids: seq<Node?>, parts: seq<seq<int>>, h: nat, s: set<object>)
    requires |kids| == |parts| == 2 && parts[0] == InorderOf(kids[0]) && parts[1] == InorderOf(kids[1])
    requires s == ReprOf(kids[0]) + ReprOf(kids[1])
    requires if h == 0 then kids[0] == kids[1] == null else
      && kids[0] != null && kids[1] != null && kids[0].Valid() && kids[1].Valid()
      && kids[0].height == kids[1].height == h
      && kids[0].n >= 2 && kids[1].n >= 2 && kids[0].Repr !! kids[1].Repr
    ensures Kids(kids, parts, h, s)
  {
    if h > 0 {
      assert Kid(kids[0], parts[0], h, s) && Kid(kids[1], parts[1], h, s);
    }
  }

  /** The tree with its global root. */
  class Tree {
    var root: Node?

    ghost predicate Valid()
      reads this, root, ReprOf(root)
    {
      && this !in ReprOf(root)
      && (root != null ==> root.Valid())
      && Increasing(InorderOf(root))
    }

    /** The keys of the tree, in order. */
    ghost function Contents(): seq<int>
      reads this, root
    {
      InorderOf(root)
    }

    ghost function Height(): nat
      reads this, root
    {
      if root == null then 0 else root.height
    }

    constructor ()
      ensures Valid() && Contents() == [] && fresh(this) && fresh(ReprOf(root))
    {
      root := null;
    }

    method NewRoot(ghost was: seq<int>, key: int, upKey: int, newnode: Node?)
      requires this !in ReprOf(root) && this !in ReprOf(newnode)
      requires if root == null then newnode == null else
        && newnode != null && root.Valid() && newnode.Valid() && root.height == newnode.height
        && root.n >= 2 && newnode.n >= 2 && root.Repr !! newnode.Repr
      requires InorderOf(root) + [upKey] + InorderOf(newnode) == Ins(was, key) && Increasing(Ins(was, key))
      modifies this
      ensures Valid() && Contents() == Ins(was, key) && Height() == old(Height()) + 1
      ensures fresh(ReprOf(root) - old(ReprOf(root) + ReprOf(newnode)))
    {
      var uproot := root;
      ghost var s := ReprOf(root) + ReprOf(newnode);
      ghost var h := Height();
      var node := new Node();
      node.n := 1;
      node.keys := node.keys[0 := upKey];
      node.p := node.p[0 := uproot];
      node.p := node.p[1 := newnode];
      node.height := h + 1;
      node.parts := [InorderOf(uproot), InorderOf(newnode)];
      node.inorder := Ins(was, key);
      node.Repr := s + {node};
      root := node;
      TwoKids(node.p[..2], node.parts, h, s);
      assert node.Repr - {node} == s;
      assert node.keys[..1] == [upKey];
      OneKey(upKey, node.parts);
    }

    /** Duplicate exactly when the key is there; otherwise it is added, and only a split root makes the tree higher. */
    method Insert(key: int) returns (status: KeyStatus)
      requires Valid()
      modifies this, ReprOf(root)
      ensures Valid() && fresh(ReprOf(root) - old(ReprOf(root)))
      ensures status == Duplicate <==> key in old(Contents())
      ensures Contents() == if status == Duplicate then old(Contents()) else Ins(old(Contents()), key)
      ensures Height() == old(Height()) + if status == InsertIt then 1 else 0
    {
      ghost var was := Contents();
      if key !in was {
        InsIncreasing(was, key);
      }
      var upKey, newnode;
      status, upKey, newnode := InsertHelper(root, key);
      if status == InsertIt {
        NewRoot(was, key, upKey, newnode);
      }
    }
  }

  lemma {:induction false} BeforeStart(keys: seq<int>, parts: seq<seq<int>>)
    requires |parts| == |keys| + 1
    ensures Before(keys, parts, 0) == []
  {
  }

  lemma {:induction false} AfterLast(keys: seq<int>, parts: seq<seq<int>>)
    requires |parts| == |keys| + 1
    ensures After(keys, parts, |keys|) == []
  {
  }

  lemma {:induction false} BeforeNext(keys: seq<int>, parts: seq<seq<int>>, k: nat)
    requires |parts| == |keys| + 1 && k < |keys|
    ensures Before(keys, parts, k + 1) == Before(keys, parts, k) + parts[k] + [keys[k]]
  {
    WeaveAround(keys[..k], parts[..k + 1], k);
    SameBefore(keys, parts, keys[..k], parts[..k + 1], k);
    AfterLast(keys[..k], parts[..k + 1]);
    assert keys[..k][..k] == keys[..k] && parts[..k + 1][..k] == parts[..k];
  }

  lemma {:induction false} ReadyToVisit(ptr: Node, pos: nat)
    requires ptr.Valid() && pos <= ptr.n
    ensures pos < |ptr.p| && pos < |ptr.parts| && InorderOf(ptr.p[pos]) == ptr.parts[pos]
    ensures ptr.p[pos] != null ==> ptr.p[pos].Valid() && ptr.p[pos].height == ptr.height - 1
  {
    assert ptr.p[..ptr.n + 1][pos] == ptr.p[pos];
    if ptr.height > 1 {
      assert Kid(ptr.p[pos], ptr.parts[pos], ptr.height - 1, ptr.Repr - {ptr});
    }
  }

  /** The keys of a tree in the order traverse visits them. */
  method Traverse(nodeptr: Node?) returns (out: seq<int>)
    requires nodeptr != null ==> nodeptr.Valid()
    decreases if nodeptr == null then 0 else nodeptr.height
    ensures out == InorderOf(nodeptr)
  {
    out := [];
    if nodeptr != null {
      hide Kids, Weave, Before, After;
      Opened(nodeptr);
      ghost var ks, parts := nodeptr.keys[..nodeptr.n], nodeptr.parts;
      BeforeStart(ks, parts);
      var i := 0;
      while i < nodeptr.n
        invariant 0 <= i <= nodeptr.n && out == Before(ks, parts, i)
      {
        ReadyToVisit(nodeptr, i);
        var below := Traverse(nodeptr.p[i]);
        BeforeNext(ks, parts, i);
        out := out + below + [nodeptr.keys[i]];
        i := i + 1;
      }
      ReadyToVisit(nodeptr, i);
      var below := Traverse(nodeptr.p[i]);
      WeaveAround(ks, parts, i);
      AfterLast(ks, parts);
      out := out + below;
    }
  }

  predicate SameElements(a: seq<int>, b: seq<int>) {
    (forall i :: 0 <= i < |a| ==> a[i] in b) && (forall i :: 0 <= i < |b| ==> b[i] in a)
  }

  lemma {:induction false} OneMore(was: seq<int>, now: seq<int>, input: seq<int>, i: nat)
    requires 1 <= i < |input| && SameElements(was, input[1..i])
    requires now == if input[i] in was then was else Ins(was, input[i])
    ensures SameElements(now, input[1..i + 1])
  {
    var read := input[1..i];
    assert input[1..i + 1] == read + [input[i]];
    forall k | 0 <= k < |now| ensures now[k] in read + [input[i]] {
      InsElements(was, input[i], now[k]);
    }
    forall k | 0 <= k < |read + [input[i]]| ensures (read + [input[i]])[k] in now {
      InsElements(was, input[i], (read + [input[i]])[k]);
    }
  }

  /** Every number of the input is in the output. */
  predicate HasAll(out: seq<int>, input: seq<int>) {
    forall i :: 0 <= i < |input| ==> input[i] in out
  }

  lemma {:induction false} NothingRead()
    ensures SameElements([], []) && HasAll([], []) && Increasing([])
  {
  }

  lemma {:induction false} HasAllIffFirstAgain(out: seq<int>, input: seq<int>)
    requires input != [] && SameElements(out, input[1..])
    ensures HasAll(out, input) <==> input[0] in input[1..]
  {
    if input[0] in input[1..] {
      var k :| 0 <= k < |input[1..]| && input[1..][k] == input[0];
      forall i | 0 <= i < |input| ensures input[i] in out {
        assert input[i] == input[1..][if i == 0 then k else i - 1];
      }
    } else {
      assert input[0] !in out;
    }
  }

  /**
    main: the numbers of the input file, inserted one by one into an empty tree. The first one is read before the
    loop and overwritten by the second, so it is not inserted: all numbers are in the tree exactly when the first
    one occurs again.
  */
  method Load(input: seq<int>) returns (t: Tree, out: seq<int>)
    ensures fresh(t) && t.Valid() && out == t.Contents() && Increasing(out)
    ensures SameElements(out, if input == [] then [] else input[1..])
    ensures HasAll(out, input) <==> input == [] || input[0] in input[1..]
  {
    NothingRead();
    hide SameElements, HasAll, Node.Valid, Increasing, Ins;
    t := new Tree();
    out := [];
    if input == [] {
      return;
    }
    assert input[1..1] == [];
    var i := 1;
    while i < |input|
      invariant 1 <= i <= |input|
      invariant fresh(t) && fresh(ReprOf(t.root)) && t.Valid()
      invariant SameElements(t.Contents(), input[1..i])
    {
      ghost var was := t.Contents();
      var status := t.Insert(input[i]);
      OneMore(was, t.Contents(), input, i);
      i := i + 1;
    }
    out := Traverse(t.root);
    assert input[1..i] == input[1..];
    HasAllIffFirstAgain(out, input);
  }

  lemma {:induction false} OnlyTwo(out: seq<int>)
    requires SameElements(out, [1, 2][1..]) && Increasing(out)
    ensures out == [2]
  {
    assert [1, 2][1..] == [2];
    assert [2][0] in out;
    assert out[0] == out[|out| - 1] == 2;
  }

  /** Of the numbers 1 and 2 only 2 is in the tree. */
  method LoadOneTwo() returns (out: seq<int>)
    ensures out == [2]
  {
    var t;
    t, out := Load([1, 2]);
    OnlyTwo(out);
  }

  // ---------------------------------------------------------------- the height

  function Pow3(h: nat): (r: nat)
    ensures r >= 1
  {
    if h == 0 then 1 else 3 * Pow3(h - 1)
  }

  /** Total length of the parts and the keys. */
  lemma {:induction false} WeaveLength(keys: seq<int>, parts: seq<seq<int>>, least: nat)
    requires |parts| == |keys| + 1 && forall i :: 0 <= i < |parts| ==> |parts[i]| >= least
    ensures |Weave(keys, parts)| >= |keys| + least * |parts|
  {
    if keys != [] {
      WeaveLength(keys[1..], parts[1..], least);
    }
  }

  /** A node of height h with at least two keys has at least 3^h - 1 keys below it. */
  lemma {:induction false} FullBelow(t: Node)
    requires t.Valid() && t.n >= 2
    ensures |t.inorder| >= Pow3(t.height) - 1
    decreases t.height, 1
  {
    PartsLong(t);
    var least: nat := Pow3(t.height - 1) - 1;
    WeaveLength(t.keys[..t.n], t.parts, least);
    assert |t.inorder| >= t.n + least * (t.n + 1);
    assert least * (t.n + 1) >= least * 3;
  }

  lemma {:induction false} PartsLong(t: Node)
    requires t.Valid()
    ensures |t.parts| == t.n + 1 && forall i :: 0 <= i < |t.parts| ==> |t.parts[i]| >= Pow3(t.height - 1) - 1
    decreases t.height, 0
  {
    if t.height > 1 {
      forall i | 0 <= i < |t.parts| ensures |t.parts[i]| >= Pow3(t.height - 1) - 1 {
        ReadyToVisit(t, i);
        assert Kid(t.p[..t.n + 1][i], t.parts[i], t.height - 1, t.Repr - {t});
        FullBelow(t.p[i]);
      }
    }
  }

  /** A tree of height h has at least 2 * 3^(h - 1) - 1 keys. */
  lemma {:induction false} KeysOfHeight(t: Tree)
    requires t.Valid() && t.root != null
    ensures t.Height() >= 1 && |t.Contents()| >= 2 * Pow3(t.Height() - 1) - 1
  {
    var r := t.root;
    PartsLong(r);
    var least: nat := Pow3(r.height - 1) - 1;
    WeaveLength(r.keys[..r.n], r.parts, least);
    assert least * (r.n + 1) >= least * 2;
  }
}
