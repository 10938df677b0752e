/**
  Correction of a page read from the CAFE NAND controller. The Reed-Solomon decoder reports positions of 12-bit symbols
  and the pattern to exclusive-or into each; symbols straddle bytes, and page and spare area are two buffers.
*/
module CafePatch {

  /** One entry of the decoder's answer. */
  datatype Fix = Fix(p: nat, pat: bv16)

  const BUF: nat := 2048
  const LAST: nat := 1374

  /** A pattern is a symbol of 12 bits. */
  predicate IsSymbol(f: Fix) {
    f.pat <= 0xFFF
  }

  /** The symbol is in the page; of symbol 0 only the low eight bits are. */
  predicate InRange(f: Fix) {
    IsSymbol(f) && f.p <= LAST && (f.p == 0 ==> f.pat <= 0xFF)
  }

  // ---------------------------------------------------------------- the page as bits

  predicate Masked(x: bv8, bit: bv8) {
    x & bit != 0
  }

  /** Bit i of a byte, most significant first. */
  predicate ByteBit(x: bv8, i: nat) {
    match i
    case 0 => Masked(x, 0x80)
    case 1 => Masked(x, 0x40)
    case 2 => Masked(x, 0x20)
    case 3 => Masked(x, 0x10)
    case 4 => Masked(x, 0x08)
    case 5 => Masked(x, 0x04)
    case 6 => Masked(x, 0x02)
    case 7 => Masked(x, 0x01)
    case _ => false
  }

  /** Bit j of a 12-bit pattern, most significant first. */
  predicate PatternBit(x: bv16, j: nat) {
    match j
    case 0 => x & 0x800 != 0
    case 1 => x & 0x400 != 0
    case 2 => x & 0x200 != 0
    case 3 => x & 0x100 != 0
    case 4 => x & 0x080 != 0
    case 5 => x & 0x040 != 0
    case 6 => x & 0x020 != 0
    case 7 => x & 0x010 != 0
    case 8 => x & 0x008 != 0
    case 9 => x & 0x004 != 0
    case 10 => x & 0x002 != 0
    case 11 => x & 0x001 != 0
    case _ => false
  }

  predicate PageBit(page: seq<bv8>, b: nat, i: nat)
    requires b < |page| && i < 8
  {
    ByteBit(page[b], i)
  }

  /** Whether a fix inverts bit k of the page: its pattern lies at bit 12 * p - 4. */
  predicate Inverts(f: Fix, k: nat) {
    var start := 12 * f.p - 4;
    start <= k < start + 12 && PatternBit(f.pat, k - start)
  }

  // ---------------------------------------------------------------- the page as bytes

  function Xor(x: bv8, m: bv8): bv8 { x ^ m }

  function HighEight(pat: bv16): bv8 { ((pat >> 4) & 0xFF) as bv8 }

  function LowFour(pat: bv16): bv8 { ((pat << 4) & 0xFF) as bv8 }

  function HighFour(pat: bv16): bv8 { ((pat >> 8) & 0xFF) as bv8 }

  function LowEight(pat: bv16): bv8 { (pat & 0xFF) as bv8 }

  /** What a fix does to byte b. */
  function Mask(f: Fix, b: nat): bv8
    requires IsSymbol(f)
  {
    var q := 3 * f.p / 2;
    if f.p % 2 == 1 then
      if b == q then HighEight(f.pat) else if b == q + 1 then LowFour(f.pat) else 0
    else
      if b == q - 1 then HighFour(f.pat) else if b == q then LowEight(f.pat) else 0
  }

  function Fixed(page: seq<bv8>, f: Fix): (r: seq<bv8>)
    requires IsSymbol(f)
    ensures |r| == |page| && forall b :: 0 <= b < |page| ==> r[b] == Xor(page[b], Mask(f, b))
  {
    seq(|page|, b requires 0 <= b < |page| => Xor(page[b], Mask(f, b)))
  }

  lemma {:induction false} XorMasked(x: bv8, m: bv8, bit: bv8)
    requires bit & (bit - 1) == 0
    ensures Masked(Xor(x, m), bit) <==> (Masked(x, bit) != Masked(m, bit))
  {
  }

  lemma {:induction false} XorBit(x: bv8, m: bv8, i: nat)
    requires i < 8
    ensures ByteBit(Xor(x, m), i) <==> (ByteBit(x, i) != ByteBit(m, i))
  {
    hide Masked, Xor;
    match i
    case 0 => XorMasked(x, m, 0x80);
    case 1 => XorMasked(x, m, 0x40);
    case 2 => XorMasked(x, m, 0x20);
    case 3 => XorMasked(x, m, 0x10);
    case 4 => XorMasked(x, m, 0x08);
    case 5 => XorMasked(x, m, 0x04);
    case 6 => XorMasked(x, m, 0x02);
    case 7 => XorMasked(x, m, 0x01);
  }

  lemma {:induction false} OddFirst(x: bv16, i: nat)
    requires x <= 0xFFF && i < 8
    ensures ByteBit(HighEight(x), i) <==> PatternBit(x, i)
  {
  }

  lemma {:induction false} OddSecond(x: bv16, i: nat)
    requires x <= 0xFFF && i < 8
    ensures ByteBit(LowFour(x), i) <==> PatternBit(x, 8 + i)
  {
  }

  lemma {:induction false} EvenFirst(x: bv16, i: nat)
    requires x <= 0xFFF && i < 8
    ensures ByteBit(HighFour(x), i) <==> i >= 4 && PatternBit(x, i - 4)
  {
  }

  lemma {:induction false} EvenSecond(x: bv16, i: nat)
    requires x <= 0xFFF && i < 8
    ensures ByteBit(LowEight(x), i) <==> PatternBit(x, 4 + i)
  {
  }

  lemma {:induction false} NoBit(i: nat)
    ensures !ByteBit(0, i)
  {
  }

  lemma {:induction false} NoPatternBit(x: bv16, j: nat)
    ensures j >= 12 ==> !PatternBit(x, j)
  {
  }

  lemma {:induction false} OddMaskBits(f: Fix, m: nat, b: nat, i: nat)
    requires IsSymbol(f) && i < 8 && f.p == 2 * m + 1
    ensures ByteBit(Mask(f, b), i) <==> Inverts(f, 8 * b + i)
  {
    hide ByteBit, HighEight, LowFour, HighFour, LowEight;
    assert 3 * f.p / 2 == 3 * m + 1;
    NoBit(i);
    OddFirst(f.pat, i);
    OddSecond(f.pat, i);
    NoPatternBit(f.pat, 8 + i);
    hide PatternBit;
  }

  lemma {:induction false} EvenMaskBits(f: Fix, m: nat, b: nat, i: nat)
    requires IsSymbol(f) && i < 8 && f.p == 2 * m
    ensures ByteBit(Mask(f, b), i) <==> Inverts(f, 8 * b + i)
  {
    hide ByteBit, HighEight, LowFour, HighFour, LowEight;
    assert 3 * f.p / 2 == 3 * m;
    NoBit(i);
    EvenFirst(f.pat, i);
    EvenSecond(f.pat, i);
    hide PatternBit;
  }

  /** The bytes a fix changes hold exactly the bits of its symbol. */
  lemma {:induction false} MaskBits(f: Fix, b: nat, i: nat)
    requires IsSymbol(f) && i < 8
    ensures ByteBit(Mask(f, b), i) <==> Inverts(f, 8 * b + i)
  {
    hide ByteBit, Mask, Inverts;
    if f.p % 2 == 1 {
      OddMaskBits(f, f.p / 2, b, i);
    } else {
      EvenMaskBits(f, f.p / 2, b, i);
    }
  }

  /** Byte by byte or bit by bit, a fix is the same: exclusive or into the symbol's place. */
  lemma {:induction false} FixIsXorOfSymbol(page: seq<bv8>, f: Fix, b: nat, i: nat)
    requires IsSymbol(f) && b < |page| && i < 8
    ensures PageBit(Fixed(page, f), b, i) <==> (PageBit(page, b, i) != Inverts(f, 8 * b + i))
  {
    MaskBits(f, b, i);
    XorBit(page[b], Mask(f, b), i);
    hide ByteBit, Mask, Inverts;
  }

  // ---------------------------------------------------------------- lists of fixes

  function AllFixed(page: seq<bv8>, fixes: seq<Fix>): (r: seq<bv8>)
    requires forall i :: 0 <= i < |fixes| ==> IsSymbol(fixes[i])
    ensures |r| == |page|
  {
    if fixes == [] then page else Fixed(AllFixed(page, fixes[..|fixes| - 1]), fixes[|fixes| - 1])
  }

  lemma {:induction false} XorAlgebra(x: bv8, y: bv8, z: bv8)
    ensures Xor(Xor(x, y), z) == Xor(Xor(x, z), y) && Xor(Xor(x, y), y) == x && Xor(x, 0) == x
  {
    assert (x ^ y) ^ z == (x ^ z) ^ y;
    assert (x ^ y) ^ y == x;
  }

  lemma {:induction false} FixesCommute(page: seq<bv8>, f: Fix, h: Fix)
    requires IsSymbol(f) && IsSymbol(h)
    ensures Fixed(Fixed(page, f), h) == Fixed(Fixed(page, h), f)
  {
    hide Mask, Xor;
    forall b | 0 <= b < |page| ensures Fixed(Fixed(page, f), h)[b] == Fixed(Fixed(page, h), f)[b] {
      XorAlgebra(page[b], Mask(f, b), Mask(h, b));
    }
  }

  lemma {:induction false} FixTwice(page: seq<bv8>, f: Fix)
    requires IsSymbol(f)
    ensures Fixed(Fixed(page, f), f) == page
  {
    hide Mask, Xor;
    forall b | 0 <= b < |page| ensures Fixed(Fixed(page, f), f)[b] == page[b] {
      XorAlgebra(page[b], Mask(f, b), 0);
    }
  }

  /** A fix from the middle of the list can be done last. */
  lemma {:induction false} MoveLast(page: seq<bv8>, fixes: seq<Fix>, k: nat)
    requires k < |fixes| && forall i :: 0 <= i < |fixes| ==> IsSymbol(fixes[i])
    ensures AllFixed(page, fixes) == Fixed(AllFixed(page, fixes[..k] + fixes[k + 1..]), fixes[k])
    decreases |fixes|
  {
    hide Fixed, IsSymbol;
    var n, f := |fixes| - 1, fixes[k];
    var rest := fixes[..k] + fixes[k + 1..];
    if k == n {
      assert rest == fixes[..n];
    } else {
      MoveLast(page, fixes[..n], k);
      var before := fixes[..n][..k] + fixes[..n][k + 1..];
      assert rest[..n - 1] == before && rest[n - 1] == fixes[n];
      FixesCommute(AllFixed(page, before), f, fixes[n]);
    }
  }

  lemma {:induction false} WithoutOne(s: seq<Fix>, k: nat)
    requires k < |s|
    ensures multiset(s[..k] + s[k + 1..]) == multiset(s) - multiset{s[k]}
  {
    assert s == s[..k] + [s[k]] + s[k + 1..];
  }

  lemma {:induction false} SameElement(s: seq<Fix>, t: seq<Fix>) returns (k: nat)
    requires multiset(s) == multiset(t) && s != []
    ensures k < |t| && t[k] == s[|s| - 1] && multiset(s[..|s| - 1]) == multiset(t[..k] + t[k + 1..])
  {
    var n := |s| - 1;
    assert s[n] in multiset(s);
    assert s[n] in t;
    k :| 0 <= k < |t| && t[k] == s[n];
    WithoutOne(s, n);
    WithoutOne(t, k);
    assert s[..n] + s[n + 1..] == s[..n];
  }

  /** The order of the fixes does not matter. */
  lemma {:induction false} OrderIsIrrelevant(page: seq<bv8>, s: seq<Fix>, t: seq<Fix>)
    requires multiset(s) == multiset(t)
    requires forall i :: 0 <= i < |s| ==> IsSymbol(s[i])
    requires forall i :: 0 <= i < |t| ==> IsSymbol(t[i])
    ensures AllFixed(page, s) == AllFixed(page, t)
    decreases |s|
  {
    hide Fixed, IsSymbol;
    if s == [] {
      assert |t| == |multiset(t)| == |multiset(s)| == 0;
    } else {
      var n := |s| - 1;
      var k := SameElement(s, t);
      OrderIsIrrelevant(page, s[..n], t[..k] + t[k + 1..]);
      MoveLast(page, t, k);
    }
  }

  lemma {:induction false} PushThrough(page: seq<bv8>, fixes: seq<Fix>, f: Fix)
    requires IsSymbol(f) && forall i :: 0 <= i < |fixes| ==> IsSymbol(fixes[i])
    ensures AllFixed(Fixed(page, f), fixes) == Fixed(AllFixed(page, fixes), f)
    decreases |fixes|
  {
    hide Fixed, IsSymbol;
    if fixes != [] {
      var n := |fixes| - 1;
      PushThrough(page, fixes[..n], f);
      FixesCommute(AllFixed(page, fixes[..n]), f, fixes[n]);
    }
  }

  /** The same fixes applied once more give the page back. */
  lemma {:induction false} AppliedTwice(page: seq<bv8>, fixes: seq<Fix>)
    requires forall i :: 0 <= i < |fixes| ==> IsSymbol(fixes[i])
    ensures AllFixed(AllFixed(page, fixes), fixes) == page
    decreases |fixes|
  {
    if fixes != [] {
      var n, f := |fixes| - 1, fixes[|fixes| - 1];
      var init := fixes[..n];
      hide Fixed, IsSymbol;
      PushThrough(AllFixed(page, init), init, f);
      FixTwice(AllFixed(AllFixed(page, init), init), f);
      AppliedTwice(page, init);
    }
  }

  // ---------------------------------------------------------------- the driver's loop

  /** The fixes before the first that is out of range. */
  function GoodPrefix(fixes: seq<Fix>): (k: nat)
    requires forall i :: 0 <= i < |fixes| ==> IsSymbol(fixes[i])
    ensures k <= |fixes| && (forall i :: 0 <= i < k ==> InRange(fixes[i])) && (k < |fixes| ==> !InRange(fixes[k]))
  {
    if fixes == [] || !InRange(fixes[0]) then 0 else 1 + GoodPrefix(fixes[1..])
  }

  /** One byte of the page, counted through both buffers. */
  function Xored(page: seq<bv8>, b: nat, m: bv8): (r: seq<bv8>)
    requires b < |page|
    ensures |r| == |page|
  {
    page[b := Xor(page[b], m)]
  }

  /** An odd symbol: a byte and the high half of the next. */
  lemma {:induction false} OddFix(page: seq<bv8>, f: Fix, q: nat)
    requires IsSymbol(f) && f.p % 2 == 1 && q == 3 * f.p / 2 && q + 1 < |page|
    ensures Fixed(page, f) == Xored(Xored(page, q, HighEight(f.pat)), q + 1, LowFour(f.pat))
  {
    hide HighEight, LowFour, Xor;
    var r := Xored(Xored(page, q, HighEight(f.pat)), q + 1, LowFour(f.pat));
    forall b | 0 <= b < |page| ensures Fixed(page, f)[b] == r[b] {
      XorAlgebra(page[b], 0, 0);
    }
  }

  /** An even symbol: the low half of a byte and the next byte; for symbol 0 there is no byte before. */
  lemma {:induction false} EvenFix(page: seq<bv8>, f: Fix, q: nat)
    requires IsSymbol(f) && f.p % 2 == 0 && q == 3 * f.p / 2 && q < |page|
    ensures f.p > 0 ==> Fixed(page, f) == Xored(Xored(page, q - 1, HighFour(f.pat)), q, LowEight(f.pat))
    ensures f.p == 0 ==> Fixed(page, f) == Xored(page, q, LowEight(f.pat))
  {
    hide HighFour, LowEight, Xor;
    var r := if f.p > 0 then Xored(Xored(page, q - 1, HighFour(f.pat)), q, LowEight(f.pat))
             else Xored(page, q, LowEight(f.pat));
    forall b | 0 <= b < |page| ensures Fixed(page, f)[b] == r[b] {
      XorAlgebra(page[b], 0, 0);
    }
  }

  /** One assignment `^=` to a byte of the first buffer. */
  method XorBuf(buf: array<bv8>, oob: array<bv8>, i: nat, m: bv8)
    requires i < buf.Length && buf != oob
    modifies buf
    ensures buf[..] + oob[..] == Xored(old(buf[..] + oob[..]), i, m)
  {
    hide Xor;
    buf[i] := Xor(buf[i], m);
  }

  /** One assignment `^=` to a byte of the second buffer. */
  method XorOob(buf: array<bv8>, oob: array<bv8>, i: nat, m: bv8)
    requires i < oob.Length && buf != oob
    modifies oob
    ensures buf[..] + oob[..] == Xored(old(buf[..] + oob[..]), buf.Length + i, m)
  {
    hide Xor;
    oob[i] := Xor(oob[i], m);
  }

  /** The branches for one position that is in range: one or two bytes of the two buffers. */
  method PatchOne(buf: array<bv8>, oob: array<bv8>, p: nat, pat: bv16)
    requires buf.Length == BUF && oob.Length >= 14 && buf != oob && InRange(Fix(p, pat))
    modifies buf, oob
    ensures buf[..] + oob[..] == Fixed(old(buf[..] + oob[..]), Fix(p, pat))
  {
    ghost var page, f := buf[..] + oob[..], Fix(p, pat);
    if p % 2 == 1 {
      OddFix(page, f, 3 * p / 2);
    } else {
      EvenFix(page, f, 3 * p / 2);
    }
    hide Fixed, Xored, HighEight, LowFour, HighFour, LowEight;
    if p == 0 {
      XorBuf(buf, oob, 0, LowEight(pat));
    } else if p == 1365 {
      XorBuf(buf, oob, 2047, HighEight(pat));
      XorOob(buf, oob, 0, LowFour(pat));
    } else if p > 1365 {
      if p % 2 == 1 {
        XorOob(buf, oob, 3 * p / 2 - 2048, HighEight(pat));
        XorOob(buf, oob, 3 * p / 2 - 2047, LowFour(pat));
      } else {
        XorOob(buf, oob, 3 * p / 2 - 2049, HighFour(pat));
        XorOob(buf, oob, 3 * p / 2 - 2048, LowEight(pat));
      }
    } else if p % 2 == 1 {
      XorBuf(buf, oob, 3 * p / 2, HighEight(pat));
      XorBuf(buf, oob, 3 * p / 2 + 1, LowFour(pat));
    } else {
      XorBuf(buf, oob, 3 * p / 2 - 1, HighFour(pat));
      XorBuf(buf, oob, 3 * p / 2, LowEight(pat));
    }
  }

  lemma {:induction false} PrefixIs(fixes: seq<Fix>, k: nat)
    requires forall i :: 0 <= i < |fixes| ==> IsSymbol(fixes[i])
    requires k <= |fixes| && (forall i :: 0 <= i < k ==> InRange(fixes[i])) && (k < |fixes| ==> !InRange(fixes[k]))
    ensures GoodPrefix(fixes) == k
  {
    var g := GoodPrefix(fixes);
    assert !(g < k) && !(k < g);
  }

  /**
    The correction loop. `found` is the decoder's count, negative when it gave up. An entry out of range ends the loop
    with a negative count, and the entries before it stay applied.
  */
  method CorrectPage(buf: array<bv8>, oob: array<bv8>, fixes: seq<Fix>, found: int) returns (n: int)
    requires buf.Length == BUF && oob.Length >= 14 && buf != oob
    requires found <= |fixes| && forall i :: 0 <= i < |fixes| ==> IsSymbol(fixes[i])
    modifies buf, oob
    ensures
      var done := if found < 0 then [] else fixes[..found];
      var k := GoodPrefix(done);
      && buf[..] + oob[..] == AllFixed(old(buf[..] + oob[..]), done[..k])
      && (forall i :: 0 <= i < k ==> done[i].p <= 1374 && (done[i].p == 0 ==> done[i].pat <= 0xFF))
      && (k < |done| ==> done[k].p > 1374 || (done[k].p == 0 && done[k].pat > 0xFF))
      && n == if k == |done| then found else if done[k].p > 1374 then -1374 else -2048
  {
    hide Fixed;
    ghost var page := buf[..] + oob[..];
    ghost var done := if found < 0 then [] else fixes[..found];
    n := found;
    var i := 0;
    while i < n
      invariant 0 <= i <= |done| && buf[..] + oob[..] == AllFixed(page, done[..i])
      invariant n == found && forall j :: 0 <= j < i ==> InRange(done[j])
      decreases n - i
    {
      var p, pat := fixes[i].p, fixes[i].pat;
      assert done[i] == fixes[i] && done[..i + 1][..i] == done[..i];
      if p > 1374 {
        n := -1374;
      } else if p == 0 && pat > 0xFF {
        n := -2048;
      } else {
        PatchOne(buf, oob, p, pat);
      }
      if n < 0 {
        PrefixIs(done, i);
        return;
      }
      i := i + 1;
    }
    PrefixIs(done, i);
    assert done[..i] == done;
  }
}
