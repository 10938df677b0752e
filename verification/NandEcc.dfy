/**
  One-bit error correction of the Blackfin NAND driver. The code of 256 bytes is two sums of 11 bits each: the
  exclusive or of the addresses of the bits that are one, and the exclusive or of the complements of those addresses.
  That the controller computes exactly this is an assumption of the model.
*/
module NandEcc {

  type Block = d: seq<bv8> | |d| == 256 witness seq(256, _ => 0)

  // ---------------------------------------------------------------- the code of a block

  const ALL: bv16 := 0x7FF

  predicate BitSet(x: bv8, i: bv16) {
    i < 8 && (x >> i) & 1 == 1
  }

  function Xor(a: bv16, b: bv16): bv16 {
    a ^ b
  }

  /** What one bit contributes: its address, or the complement of its address when mask is 0x7FF. */
  function Term(x: bv8, i: bv16, base: bv16, mask: bv16): bv16 {
    if BitSet(x, i) then (base | i) ^ mask else 0
  }

  /** The contribution of a byte whose bits have the addresses base to base + 7. */
  function BitSum(x: bv8, base: bv16, mask: bv16): bv16 {
    Xor(Xor(Xor(Xor(Xor(Xor(Xor(Term(x, 0, base, mask), Term(x, 1, base, mask)), Term(x, 2, base, mask)),
                        Term(x, 3, base, mask)), Term(x, 4, base, mask)), Term(x, 5, base, mask)),
            Term(x, 6, base, mask)), Term(x, 7, base, mask))
  }

  /** The contribution of the first k bytes. */
  function ByteSum(d: Block, k: bv16, mask: bv16): bv16
    requires k <= 256
    decreases k as int
  {
    if k == 0 then 0 else Xor(ByteSum(d, k - 1, mask), BitSum(d[(k - 1) as int], (k - 1) << 3, mask))
  }

  function Parity(d: Block): bv16 {
    ByteSum(d, 256, 0)
  }

  function ComplementParity(d: Block): bv16 {
    ByteSum(d, 256, ALL)
  }

  function ByteOf(a: bv16): (n: nat)
    requires a <= ALL
    ensures n < 256
  {
    (a >> 3) as int
  }

  function Inverted(x: bv8, i: bv16): bv8
    requires i < 8
  {
    x ^ (1 << i)
  }

  /** The block with the bit at one address inverted: byte a / 8, bit a % 8. */
  function Flip(d: Block, a: bv16): Block
    requires a <= ALL
  {
    d[ByteOf(a) := Inverted(d[ByteOf(a)], a & 7)]
  }

  lemma {:induction false} BitFlip(x: bv8, i: bv16, j: bv16)
    requires i < 8 && j < 8
    ensures BitSet(x ^ (1 << j), i) <==> (BitSet(x, i) != (i == j))
  {
  }

  /** v if it is counted. */
  function When(c: bool, v: bv16): bv16 {
    if c then v else 0
  }

  lemma {:induction false} XorAssociative(a: bv16, b: bv16, c: bv16)
    ensures Xor(Xor(a, b), c) == Xor(a, Xor(b, c))
  {
  }

  lemma {:induction false} XorCommutes(a: bv16, b: bv16)
    ensures Xor(a, b) == Xor(b, a) && Xor(a, 0) == a && Xor(a, a) == 0
  {
  }

  lemma {:induction false} XorRegroup(p: bv16, t: bv16, v: bv16)
    ensures Xor(Xor(p, v), Xor(t, 0)) == Xor(Xor(p, t), v)
    ensures Xor(Xor(p, 0), Xor(t, v)) == Xor(Xor(p, t), v)
    ensures Xor(Xor(p, 0), Xor(t, 0)) == Xor(Xor(p, t), 0)
    ensures Xor(p, Xor(t, v)) == Xor(Xor(p, t), v) == Xor(Xor(p, v), t)
  {
    hide Xor;
    XorAssociative(p, t, v);
    XorAssociative(p, v, t);
    XorCommutes(t, v);
    XorCommutes(p, v);
    XorCommutes(Xor(p, t), v);
  }

  lemma {:induction false} XorWhen(p: bv16, c: bool, t: bv16, h: bool, v: bv16)
    requires !(c && h)
    ensures Xor(Xor(p, When(c, v)), Xor(t, When(h, v))) == Xor(Xor(p, t), When(c || h, v))
  {
    hide Xor;
    XorRegroup(p, t, v);
  }

  lemma {:induction false} TermFlip(x: bv8, i: bv16, j: bv16, base: bv16, mask: bv16)
    requires i < 8 && j < 8
    ensures Term(Inverted(x, j), i, base, mask) == Xor(Term(x, i, base, mask), When(i == j, (base | j) ^ mask))
  {
    BitFlip(x, i, j);
    hide BitSet;
    var v := (base | i) ^ mask;
    assert v ^ v == 0 && v ^ 0 == v && 0 ^ v == v;
  }

  lemma {:induction false} WhenTrue(c: bool, v: bv16)
    requires c
    ensures When(c, v) == v
  {
  }

  lemma {:induction false} SumOfTerms(t0: bv16, t1: bv16, t2: bv16, t3: bv16, t4: bv16, t5: bv16, t6: bv16, t7: bv16,
                                      j: bv16, v: bv16)
    requires j < 8
    ensures
      var s0 := Xor(t0, When(0 == j, v));
      var s1 := Xor(s0, Xor(t1, When(1 == j, v)));
      var s2 := Xor(s1, Xor(t2, When(2 == j, v)));
      var s3 := Xor(s2, Xor(t3, When(3 == j, v)));
      var s4 := Xor(s3, Xor(t4, When(4 == j, v)));
      var s5 := Xor(s4, Xor(t5, When(5 == j, v)));
      var s6 := Xor(s5, Xor(t6, When(6 == j, v)));
      Xor(s6, Xor(t7, When(7 == j, v)))
      == Xor(Xor(Xor(Xor(Xor(Xor(Xor(Xor(t0, t1), t2), t3), t4), t5), t6), t7), v)
  {
    var p1 := Xor(t0, t1);
    var p2 := Xor(p1, t2);
    var p3 := Xor(p2, t3);
    var p4 := Xor(p3, t4);
    var p5 := Xor(p4, t5);
    var p6 := Xor(p5, t6);
    var d1 := 0 == j || 1 == j;
    var d2 := d1 || 2 == j;
    var d3 := d2 || 3 == j;
    var d4 := d3 || 4 == j;
    var d5 := d4 || 5 == j;
    var d6 := d5 || 6 == j;
    hide Xor, When;
    XorWhen(t0, 0 == j, t1, 1 == j, v);
    XorWhen(p1, d1, t2, 2 == j, v);
    XorWhen(p2, d2, t3, 3 == j, v);
    XorWhen(p3, d3, t4, 4 == j, v);
    XorWhen(p4, d4, t5, 5 == j, v);
    XorWhen(p5, d5, t6, 6 == j, v);
    XorWhen(p6, d6, t7, 7 == j, v);
    WhenTrue(d6 || 7 == j, v);
  }

  lemma {:induction false} BitSumFlip(x: bv8, j: bv16, base: bv16, mask: bv16)
    requires j < 8
    ensures BitSum(Inverted(x, j), base, mask) == Xor(BitSum(x, base, mask), (base | j) ^ mask)
  {
    var v := (base | j) ^ mask;
    TermFlip(x, 0, j, base, mask);
    TermFlip(x, 1, j, base, mask);
    TermFlip(x, 2, j, base, mask);
    TermFlip(x, 3, j, base, mask);
    TermFlip(x, 4, j, base, mask);
    TermFlip(x, 5, j, base, mask);
    TermFlip(x, 6, j, base, mask);
    TermFlip(x, 7, j, base, mask);
    SumOfTerms(Term(x, 0, base, mask), Term(x, 1, base, mask), Term(x, 2, base, mask), Term(x, 3, base, mask),
               Term(x, 4, base, mask), Term(x, 5, base, mask), Term(x, 6, base, mask), Term(x, 7, base, mask), j, v);
    hide Term, Xor, When, Inverted;
  }

  lemma {:induction false} Address(a: bv16)
    requires a <= ALL
    ensures a >> 3 < 256 && a & 7 < 8 && ((a >> 3) << 3) | (a & 7) == a && a ^ 0 == a
  {
  }

  lemma {:induction false} SameNumber(a: bv16, b: bv16)
    ensures a as int == b as int <==> a == b
  {
    assert (a as int) as bv16 == a && (b as int) as bv16 == b;
  }

  lemma {:induction false} SameByte(a: bv16, b: bv16)
    requires a <= ALL && b < 256
    ensures 0 <= b as int < 256 && (ByteOf(a) == b as int <==> a >> 3 == b)
  {
    SameNumber(a >> 3, b);
  }

  lemma {:induction false} ByteFlip(d: Block, a: bv16, b: bv16, mask: bv16)
    requires a <= ALL && b < 256
    ensures BitSum(Flip(d, a)[b as int], b << 3, mask)
         == if a >> 3 == b then Xor(BitSum(d[b as int], b << 3, mask), a ^ mask) else BitSum(d[b as int], b << 3, mask)
  {
    hide BitSum, Xor, Inverted, ByteOf;
    Address(a);
    SameByte(a, b);
    if a >> 3 == b {
      BitSumFlip(d[b as int], a & 7, b << 3, mask);
    }
  }

  lemma {:induction false} BelowNext(x: bv16, k: bv16)
    requires 0 < k <= 256
    ensures x < k <==> x < k - 1 || x == k - 1
  {
  }

  /** Inverting one bit adds its address, or the complement of its address, to the sum. */
  lemma {:induction false} SumFlip(d: Block, a: bv16, k: bv16, mask: bv16)
    requires a <= ALL && k <= 256
    ensures ByteSum(Flip(d, a), k, mask)
         == if (a >> 3) < k then Xor(ByteSum(d, k, mask), a ^ mask) else ByteSum(d, k, mask)
    decreases k as int
  {
    hide Xor, BitSum, Flip;
    if k > 0 {
      var b, x, v := k - 1, a >> 3, a ^ mask;
      SumFlip(d, a, b, mask);
      ByteFlip(d, a, b, mask);
      BelowNext(x, k);
      XorRegroup(ByteSum(d, b, mask), BitSum(d[b as int], b << 3, mask), v);
    }
  }

  lemma {:induction false} CodeSums(d: Block, a: bv16)
    requires a <= ALL
    ensures Parity(Flip(d, a)) == Xor(Parity(d), a) && ComplementParity(Flip(d, a)) == Xor(ComplementParity(d), a ^ ALL)
  {
    SumFlip(d, a, 256, 0);
    SumFlip(d, a, 256, ALL);
    Address(a);
    hide ByteSum, Flip, Xor;
    assert a ^ 0 == a;
  }

  lemma {:induction false} BitSumBound(x: bv8, base: bv16, mask: bv16)
    requires base <= ALL && mask <= ALL
    ensures BitSum(x, base, mask) <= ALL
  {
    hide BitSet;
  }

  lemma {:induction false} SumBound(d: Block, k: bv16, mask: bv16)
    requires k <= 256 && mask <= ALL
    ensures ByteSum(d, k, mask) <= ALL
    decreases k as int
  {
    if k > 0 {
      SumBound(d, k - 1, mask);
      BitSumBound(d[(k - 1) as int], (k - 1) << 3, mask);
      hide BitSum;
    }
  }

  // ---------------------------------------------------------------- the driver

  /** Two 11-bit sums in one word. */
  function Pack(p: bv16, q: bv16): bv32 {
    (p as bv32) | ((q as bv32) << 11)
  }

  function Difference(x: bv32, y: bv32): bv32 {
    x ^ y
  }

  /** The code of a block. */
  function Code(d: Block): bv32 {
    Pack(Parity(d), ComplementParity(d))
  }

  function Bit(w: bv32, i: bv32): nat
    requires i < 32
  {
    if (w >> i) & 1 == 1 then 1 else 0
  }

  /** The ones of the first sum, of the second sum, and above them. */
  function FirstOnes(w: bv32): nat {
    Bit(w, 0) + Bit(w, 1) + Bit(w, 2) + Bit(w, 3) + Bit(w, 4) + Bit(w, 5) + Bit(w, 6) + Bit(w, 7) + Bit(w, 8)
    + Bit(w, 9) + Bit(w, 10)
  }

  function SecondOnes(w: bv32): nat {
    Bit(w, 11) + Bit(w, 12) + Bit(w, 13) + Bit(w, 14) + Bit(w, 15) + Bit(w, 16) + Bit(w, 17) + Bit(w, 18)
    + Bit(w, 19) + Bit(w, 20) + Bit(w, 21)
  }

  function HighOnes(w: bv32): nat {
    Bit(w, 22) + Bit(w, 23) + Bit(w, 24) + Bit(w, 25) + Bit(w, 26) + Bit(w, 27) + Bit(w, 28) + Bit(w, 29) + Bit(w, 30)
    + Bit(w, 31)
  }

  /** The number of one bits. */
  function Hweight32(w: bv32): nat {
    FirstOnes(w) + SecondOnes(w) + HighOnes(w)
  }

  lemma {:induction false} PackDifference(p: bv16, q: bv16, a: bv16, b: bv16)
    requires p <= ALL && q <= ALL && a <= ALL && b <= ALL
    ensures Pack(Xor(p, a), Xor(q, b)) ^ Pack(p, q) == Pack(a, b)
  {
  }

  lemma {:induction false} PackBits(a: bv16, i: bv32, j: bv32)
    requires a <= ALL && i < 11 && j == i + 11
    ensures Bit(Pack(a, a ^ ALL), i) + Bit(Pack(a, a ^ ALL), j) == 1
    ensures Bit(Pack(a, a), i) == Bit(Pack(a, a), j)
  {
  }

  lemma {:induction false} PackHigh(a: bv16, b: bv16)
    requires a <= ALL && b <= ALL
    ensures HighOnes(Pack(a, b)) == 0
  {
  }

  lemma {:induction false} PackWeights(a: bv16)
    requires a <= ALL
    ensures FirstOnes(Pack(a, a ^ ALL)) + SecondOnes(Pack(a, a ^ ALL)) == 11
    ensures FirstOnes(Pack(a, a)) == SecondOnes(Pack(a, a))
  {
    PackBits(a, 0, 11);
    PackBits(a, 1, 12);
    PackBits(a, 2, 13);
    PackBits(a, 3, 14);
    PackBits(a, 4, 15);
    PackBits(a, 5, 16);
    PackBits(a, 6, 17);
    PackBits(a, 7, 18);
    PackBits(a, 8, 19);
    PackBits(a, 9, 20);
    PackBits(a, 10, 21);
    hide Pack, Bit;
  }

  /** A sum beside its complement has eleven ones. */
  lemma {:induction false} ComplementWeight(a: bv16)
    requires a <= ALL
    ensures Hweight32(Pack(a, a ^ ALL)) == 11
  {
    PackWeights(a);
    PackHigh(a, a ^ ALL);
    hide FirstOnes, SecondOnes, HighOnes, Pack;
  }

  /** Three code bytes as one word, low byte first. */
  function Word(ecc: seq<bv8>): bv32
    requires |ecc| == 3
  {
    (ecc[0] as bv32) | ((ecc[1] as bv32) << 8) | ((ecc[2] as bv32) << 16)
  }

  /** Low 11 bits of a word. */
  function Low(s: bv32): (a: bv16)
    ensures a <= ALL
  {
    (s & 0x7FF) as bv16
  }

  /** Every parity bit differs from its complement bit: what one wrong data bit looks like. */
  predicate Opposite(s: bv32) {
    s == Pack(Low(s), Low(s) ^ ALL)
  }

  lemma {:induction false} PackTwice(a: bv16)
    requires 0 < a <= ALL
    ensures Pack(a, a) != 0 && !Opposite(Pack(a, a))
  {
  }

  /** A sum beside itself has an even number of ones. */
  lemma {:induction false} TwiceWeight(a: bv16)
    requires 0 < a <= ALL
    ensures Hweight32(Pack(a, a)) % 2 == 0 && Pack(a, a) != 0 && !Opposite(Pack(a, a))
  {
    PackWeights(a);
    PackHigh(a, a);
    PackTwice(a);
    hide FirstOnes, SecondOnes, HighOnes, Pack, Opposite;
  }

  lemma {:induction false} BitMasked(s: bv32, i: bv32)
    requires i < 32
    ensures Bit(s & 0x3FFFFF, i) == if i < 22 then Bit(s, i) else 0
  {
  }

  lemma {:induction false} OnesMasked(s: bv32)
    ensures FirstOnes(s & 0x3FFFFF) == FirstOnes(s) && SecondOnes(s & 0x3FFFFF) == SecondOnes(s)
  {
    BitMasked(s, 0);
    BitMasked(s, 1);
    BitMasked(s, 2);
    BitMasked(s, 3);
    BitMasked(s, 4);
    BitMasked(s, 5);
    BitMasked(s, 6);
    BitMasked(s, 7);
    BitMasked(s, 8);
    BitMasked(s, 9);
    BitMasked(s, 10);
    BitMasked(s, 11);
    BitMasked(s, 12);
    BitMasked(s, 13);
    BitMasked(s, 14);
    BitMasked(s, 15);
    BitMasked(s, 16);
    BitMasked(s, 17);
    BitMasked(s, 18);
    BitMasked(s, 19);
    BitMasked(s, 20);
    BitMasked(s, 21);
    hide Bit;
  }

  lemma {:induction false} HighOnesMasked(s: bv32)
    ensures HighOnes(s & 0x3FFFFF) == 0 && (HighOnes(s) == 0 <==> s & 0x3FFFFF == s)
  {
  }

  function HalvesXor(s: bv32): bv32 {
    (s & 0x7FF) ^ ((s >> 11) & 0x7FF)
  }

  function LowBits(s: bv32): bv32 {
    s & 0x3FFFFF
  }

  lemma {:induction false} Halves(s: bv32)
    ensures HalvesXor(s) == 0x7FF <==> Opposite(LowBits(s))
    ensures Opposite(s) ==> LowBits(s) == s
  {
  }

  lemma {:induction false} OnesOfLowBits(s: bv32)
    ensures FirstOnes(LowBits(s)) == FirstOnes(s) && SecondOnes(LowBits(s)) == SecondOnes(s)
    ensures HighOnes(LowBits(s)) == 0
    ensures HighOnes(s) == 0 <==> LowBits(s) == s
  {
    OnesMasked(s);
    HighOnesMasked(s);
    hide FirstOnes, SecondOnes, HighOnes;
  }

  lemma {:induction false} OppositeWeight(s: bv32)
    requires Opposite(s)
    ensures Hweight32(s) == 11
  {
    ComplementWeight(Low(s));
    hide Pack, Low, Hweight32;
  }

  /** With one in each pair of bits, there are eleven ones exactly when the bits above are zero. */
  lemma {:induction false} ElevenOnes(s: bv32)
    requires Opposite(LowBits(s))
    ensures Hweight32(s) == 11 <==> LowBits(s) == s
  {
    OnesOfLowBits(s);
    OppositeWeight(LowBits(s));
    hide FirstOnes, SecondOnes, HighOnes, Opposite, LowBits;
  }

  /** The driver's test for it. */
  lemma {:induction false} OppositeTest(s: bv32)
    ensures Hweight32(s) == 11 && HalvesXor(s) == 0x7FF <==> Opposite(s)
  {
    Halves(s);
    hide Hweight32, Pack, Low, Opposite, HalvesXor, LowBits;
    if Opposite(LowBits(s)) {
      ElevenOnes(s);
    }
  }

  lemma {:induction false} OppositeNotOne(s: bv32)
    requires Opposite(s)
    ensures Hweight32(s) != 1
  {
    ComplementWeight(Low(s));
  }

  lemma {:induction false} MaskedXor(c: bv32, r: bv32)
    ensures (c & 0x7FF) ^ (r & 0x7FF) == (c ^ r) & 0x7FF
    ensures ((c >> 11) & 0x7FF) ^ ((r >> 11) & 0x7FF) == ((c ^ r) >> 11) & 0x7FF
  {
  }

  lemma {:induction false} FourXor(a: bv32, b: bv32, c: bv32, d: bv32)
    ensures (a ^ b) ^ (c ^ d) == (a ^ c) ^ (b ^ d)
  {
  }

  /** The four masked terms of the fifth syndrome are the halves of the first. */
  lemma {:induction false} FifthSyndrome(c: bv32, r: bv32)
    ensures ((c & 0x7FF) ^ ((c >> 11) & 0x7FF)) ^ ((r & 0x7FF) ^ ((r >> 11) & 0x7FF)) == HalvesXor(c ^ r)
    ensures (c & 0x7FF) ^ (r & 0x7FF) == (c ^ r) & 0x7FF <= 0x7FF
    ensures ((c & 0x7FF) ^ (r & 0x7FF)) as bv16 == Low(c ^ r)
  {
    MaskedXor(c, r);
    FourXor(c & 0x7FF, (c >> 11) & 0x7FF, r & 0x7FF, (r >> 11) & 0x7FF);
  }

  /** The syndromes after the first: the fifth is that of the first's two halves, the second its low half. */
  method LaterSyndromes(calced: bv32, stored: bv32) returns (syndrome1: bv32, syndrome4: bv32)
    ensures syndrome4 == HalvesXor(calced ^ stored)
    ensures syndrome1 <= 0x7FF && syndrome1 as bv16 == Low(calced ^ stored)
  {
    FifthSyndrome(calced, stored);
    hide Low, HalvesXor;
    syndrome1 := (calced & 0x7FF) ^ (stored & 0x7FF);
    var syndrome2 := (calced & 0x7FF) ^ ((calced >> 11) & 0x7FF);
    var syndrome3 := (stored & 0x7FF) ^ ((stored >> 11) & 0x7FF);
    syndrome4 := syndrome2 ^ syndrome3;
  }

  /** What correction does to a block: a bit inverted, or nothing; 1 reports an error that was not put right. */
  function Corrected(d: Block, stored: bv32, calced: bv32): (Block, bv32) {
    var s := calced ^ stored;
    if s == 0 || calced == 0 || stored == 0 then (d, 0)
    else if Opposite(s) then (Flip(d, Low(s)), 0)
    else (d, 1)
  }

  lemma {:induction false} FailingBit(x: bv32)
    requires x <= 0x7FF
    ensures x as bv16 <= ALL && (x >> 0x3) as bv16 < 256 && (x & 0x7) as bv16 == (x as bv16) & 7 < 8
    ensures ((x >> 0x3) as bv16) as int == ByteOf(x as bv16)
  {
    assert (x >> 0x3) as bv16 == (x as bv16) >> 3;
  }

  /** One bit of one byte is inverted. */
  method InvertBit(dat: array<bv8>, off: nat, failingByte: bv16, failingBit: bv16)
    requires off + 256 <= dat.Length && failingByte < 256 && failingBit < 8
    modifies dat
    ensures var n: nat, block: Block := failingByte as int, old(dat[off..off + 256]);
      n < 256 && dat[off..off + 256] == block[n := Inverted(block[n], failingBit)]
    ensures dat[..off] == old(dat[..off]) && dat[off + 256..] == old(dat[off + 256..])
  {
    hide Inverted;
    var n: nat := failingByte as int;
    ghost var block: Block := dat[off..off + 256];
    var data := dat[off + n];
    data := Inverted(data, failingBit);
    dat[off + n] := data;
    assert dat[off..off + 256] == block[n := data];
  }

  /** The bit at the address that the second syndrome gives. */
  method CorrectBit(dat: array<bv8>, off: nat, syndrome1: bv32)
    requires off + 256 <= dat.Length && syndrome1 <= 0x7FF
    modifies dat
    ensures dat[off..off + 256] == Flip(old(dat[off..off + 256]), syndrome1 as bv16)
    ensures dat[..off] == old(dat[..off]) && dat[off + 256..] == old(dat[off + 256..])
  {
    hide Inverted, ByteOf;
    FailingBit(syndrome1);
    var failingBit := (syndrome1 & 0x7) as bv16;
    var failingByte := (syndrome1 >> 0x3) as bv16;
    InvertBit(dat, off, failingByte, failingBit);
  }

  method CorrectData256(dat: array<bv8>, off: nat, readEcc: seq<bv8>, calcEcc: seq<bv8>) returns (ret: bv32)
    requires off + 256 <= dat.Length && |readEcc| == |calcEcc| == 3
    modifies dat
    ensures (dat[off..off + 256], ret) == Corrected(old(dat[off..off + 256]), Word(readEcc), Word(calcEcc))
    ensures dat[..off] == old(dat[..off]) && dat[off + 256..] == old(dat[off + 256..])
  {
    hide Hweight32, Word, Pack, Opposite, Low, HalvesXor, Flip;
    var calced := Word(calcEcc);
    var stored := Word(readEcc);
    var syndrome0 := calced ^ stored;
    if syndrome0 == 0 || calced == 0 || stored == 0 {
      return 0;
    }
    if Opposite(syndrome0) {
      OppositeNotOne(syndrome0);
    }
    if Hweight32(syndrome0) == 1 {
      return 1;
    }
    var syndrome1, syndrome4 := LaterSyndromes(calced, stored);
    OppositeTest(syndrome0);
    if Hweight32(syndrome0) == 11 && syndrome4 == 0x7FF {
      CorrectBit(dat, off, syndrome1);
      return 0;
    }
    return 1;
  }

  /** Blocks of 256 bytes, or of 512 with two codes, one for each half. */
  method CorrectData(dat: array<bv8>, off: nat, eccSize: nat, readEcc: seq<bv8>, calcEcc: seq<bv8>) returns (ret: bv32)
    requires off + (if eccSize == 512 then 512 else 256) <= dat.Length
    requires |readEcc| == |calcEcc| == if eccSize == 512 then 6 else 3
    modifies dat
    ensures
      var first := Corrected(old(dat[off..off + 256]), Word(readEcc[..3]), Word(calcEcc[..3]));
      && dat[off..off + 256] == first.0
      && if eccSize == 512 then
           var second := Corrected(old(dat[off + 256..off + 512]), Word(readEcc[3..]), Word(calcEcc[3..]));
           && dat[off + 256..off + 512] == second.0 && ret == first.1 | second.1
           && dat[off + 512..] == old(dat[off + 512..])
         else ret == first.1 && dat[off + 256..] == old(dat[off + 256..])
    ensures dat[..off] == old(dat[..off])
  {
    hide Corrected, Word;
    ghost var rest := dat[off + 256..];
    ret := CorrectData256(dat, off, readEcc[..3], calcEcc[..3]);
    if eccSize == 512 {
      ghost var once := dat[..off + 256];
      assert dat[off + 256..off + 512] == rest[..256] == old(dat[off + 256..off + 512]);
      var more := CorrectData256(dat, off + 256, readEcc[3..], calcEcc[3..]);
      ret := ret | more;
      assert dat[..off] == dat[..off + 256][..off] && dat[off..off + 256] == dat[..off + 256][off..];
      assert once[..off] == old(dat[..off]);
      assert dat[off + 512..] == rest[256..] == old(dat[off + 512..]);
    }
  }

  // ---------------------------------------------------------------- codes from the controller

  /** The low three bytes of a word, as memcpy takes them on a little-endian machine. */
  function Bytes(code: bv32): (b: seq<bv8>)
    ensures |b| == 3
  {
    [(code & 0xFF) as bv8, ((code >> 8) & 0xFF) as bv8, ((code >> 16) & 0xFF) as bv8]
  }

  lemma {:induction false} BytesWord(code: bv32)
    requires code <= 0xFFFFFF
    ensures Word(Bytes(code)) == code
  {
  }

  lemma {:induction false} PackedBytes(p: bv16, q: bv16)
    ensures
      var code: bv32 := ((p as bv32) & 0x7FF) | (((q as bv32) & 0x7FF) << 11);
      code == Pack(p & ALL, q & ALL) && Word(Bytes(code)) == code
  {
    var code: bv32 := ((p as bv32) & 0x7FF) | (((q as bv32) & 0x7FF) << 11);
    BytesWord(code);
    hide Word, Bytes;
  }

  /** The code bytes from the four registers of the controller. */
  method CalculateEcc(ecc0: bv16, ecc1: bv16, ecc2: bv16, ecc3: bv16, eccSize: nat) returns (eccCode: seq<bv8>)
    ensures |eccCode| == (if eccSize == 512 then 6 else 3) && Word(eccCode[..3]) == Pack(ecc0 & ALL, ecc1 & ALL)
    ensures eccSize == 512 ==> Word(eccCode[3..]) == Pack(ecc2 & ALL, ecc3 & ALL)
  {
    PackedBytes(ecc0, ecc1);
    hide Word, Bytes, Pack;
    var code0: bv32 := ((ecc0 as bv32) & 0x7FF) | (((ecc1 as bv32) & 0x7FF) << 11);
    eccCode := Bytes(code0);
    assert eccCode[..3] == eccCode;
    if eccSize == 512 {
      PackedBytes(ecc2, ecc3);
      var code1: bv32 := ((ecc2 as bv32) & 0x7FF) | (((ecc3 as bv32) & 0x7FF) << 11);
      var first := eccCode;
      eccCode := eccCode + Bytes(code1);
      assert eccCode[..3] == first && eccCode[3..] == Bytes(code1);
    }
  }

  // ---------------------------------------------------------------- what correction achieves

  lemma {:induction false} InvertedTwice(x: bv8, i: bv16)
    requires i < 8
    ensures Inverted(Inverted(x, i), i) == x && Inverted(x, i) != x
  {
  }

  lemma {:induction false} FlipTwice(d: Block, a: bv16)
    requires a <= ALL
    ensures Flip(Flip(d, a), a) == d && Flip(d, a) != d
  {
    var n := ByteOf(a);
    InvertedTwice(d[n], a & 7);
    hide Inverted, ByteOf;
    assert Flip(d, a)[n] != d[n];
  }

  lemma {:induction false} CodeOfFlip(d: Block, a: bv16)
    requires a <= ALL
    ensures Difference(Code(Flip(d, a)), Code(d)) == Pack(a, a ^ ALL)
  {
    CodeSums(d, a);
    SumBound(d, 256, 0);
    SumBound(d, 256, ALL);
    PackDifference(Parity(d), ComplementParity(d), a, a ^ ALL);
    hide ByteSum, Flip, Pack, Xor;
  }

  lemma {:induction false} PackOpposite(a: bv16)
    requires a <= ALL
    ensures Opposite(Pack(a, a ^ ALL)) && Low(Pack(a, a ^ ALL)) == a && Pack(a, a ^ ALL) != 0
  {
  }

  /** A block read with one wrong bit is restored exactly when neither code is zero; either way no error is reported. */
  lemma {:induction false} OneBitWrong(d: Block, a: bv16)
    requires a <= ALL
    ensures Corrected(Flip(d, a), Code(d), Code(Flip(d, a)))
         == (if Code(d) != 0 && Code(Flip(d, a)) != 0 then d else Flip(d, a), 0)
  {
    CodeOfFlip(d, a);
    PackOpposite(a);
    FlipTwice(d, a);
    hide Code, Flip, Pack, Opposite, Low;
  }

  lemma {:induction false} XorThrough(x: bv32, y: bv32, z: bv32)
    ensures x ^ z == (x ^ y) ^ (y ^ z)
  {
  }

  lemma {:induction false} Through(x: bv32, y: bv32, z: bv32, p: bv32, q: bv32)
    requires Difference(x, y) == p && Difference(y, z) == q
    ensures Difference(x, z) == Difference(p, q)
  {
    XorThrough(x, y, z);
    assert p == x ^ y && q == y ^ z;
  }

  lemma {:induction false} PackXor(p: bv16, q: bv16, a: bv16, b: bv16)
    requires p <= ALL && q <= ALL && a <= ALL && b <= ALL
    ensures Difference(Pack(p, q), Pack(a, b)) == Pack(p ^ a, q ^ b)
  {
  }

  lemma {:induction false} ComplementsCancel(a: bv16, b: bv16)
    requires a <= ALL && b <= ALL && a != b
    ensures (b ^ ALL) ^ (a ^ ALL) == a ^ b && b ^ a == a ^ b && 0 < a ^ b <= ALL
  {
  }

  lemma {:induction false} TwoAddresses(a: bv16, b: bv16)
    requires a <= ALL && b <= ALL && a != b
    ensures Difference(Pack(b, b ^ ALL), Pack(a, a ^ ALL)) == Pack(a ^ b, a ^ b) && 0 < a ^ b <= ALL
  {
    hide Pack, Difference;
    PackXor(b, b ^ ALL, a, a ^ ALL);
    ComplementsCancel(a, b);
  }

  lemma {:induction false} CodeOfTwoFlips(d: Block, a: bv16, b: bv16)
    requires a <= ALL && b <= ALL && a != b
    ensures Difference(Code(Flip(Flip(d, a), b)), Code(d)) == Pack(a ^ b, a ^ b)
  {
    hide Code, Flip, Pack, Difference;
    CodeOfFlip(d, a);
    CodeOfFlip(Flip(d, a), b);
    TwoAddresses(a, b);
    Through(Code(Flip(Flip(d, a), b)), Code(Flip(d, a)), Code(d), Pack(b, b ^ ALL), Pack(a, a ^ ALL));
  }

  /** Two wrong bits are reported, and the block left as read, when neither code is zero; otherwise not even
      reported. */
  lemma {:induction false} TwoBitsWrong(d: Block, a: bv16, b: bv16)
    requires a <= ALL && b <= ALL && a != b
    ensures
      var e := Flip(Flip(d, a), b);
      Corrected(e, Code(d), Code(e)) == (e, if Code(d) != 0 && Code(e) != 0 then 1 else 0)
  {
    var e := Flip(Flip(d, a), b);
    CodeOfTwoFlips(d, a, b);
    TwoAddresses(a, b);
    TwiceWeight(a ^ b);
    hide Code, Flip, Pack, Opposite, Low, Hweight32;
  }

  /** One wrong bit in the stored code: the block is not touched, and the error is reported when neither code is
      zero. */
  lemma {:induction false} CodeBitWrong(d: Block, k: bv32)
    requires k < 32
    ensures
      var stored := Code(d) ^ (1 << k);
      Corrected(d, stored, Code(d)) == (d, if stored != 0 && Code(d) != 0 then 1 else 0)
  {
  }

  lemma {:induction false} NothingWrong(d: Block)
    ensures Corrected(d, Code(d), Code(d)) == (d, 0)
  {
  }

  lemma {:induction false} BlankByte(base: bv16, mask: bv16)
    ensures BitSum(0, base, mask) == 0
  {
  }

  lemma {:induction false} Undone(x: bv32, c: bv32, s: bv32)
    requires Difference(x, c) == Difference(c, s)
    ensures x == s
  {
    assert x ^ c == c ^ s ==> x == s;
  }

  lemma {:induction false} DifferenceCommutes(x: bv32, y: bv32)
    ensures Difference(x, y) == Difference(y, x)
  {
  }

  /** Inverting the bit at address a gives the stored code exactly when the two codes differ as one wrong bit there
      makes them differ. */
  lemma {:induction false} FlipExplains(e: Block, a: bv16, stored: bv32)
    requires a <= ALL
    ensures Code(Flip(e, a)) == stored <==> Difference(Code(e), stored) == Pack(a, a ^ ALL)
  {
    CodeOfFlip(e, a);
    var c, x := Code(e), Code(Flip(e, a));
    hide Code, Flip, Pack;
    if Difference(c, stored) == Pack(a, a ^ ALL) {
      Undone(x, c, stored);
    } else if x == stored {
      DifferenceCommutes(x, c);
    }
  }

  lemma {:induction false} EqualIffNoDifference(x: bv32, y: bv32)
    ensures x ^ y == 0 <==> x == y
  {
  }

  /**
    For any errors at all, in the block or in the stored code, when neither code is zero: result 0 means that the block
    as it is left has the stored code and differs from what was read in at most one bit; result 1 means that the block
    is as read, and that neither it nor any block one bit away has the stored code.
  */
  lemma {:induction false} ResultMeans(e: Block, stored: bv32)
    requires stored != 0 && Code(e) != 0
    ensures var (d, ret) := Corrected(e, stored, Code(e));
      && (ret == 0 || ret == 1)
      && (ret == 0 ==> Code(d) == stored && (d == e || exists a :: a <= ALL && d == Flip(e, a)))
      && (ret == 1 ==> d == e && Code(e) != stored && forall a :: a <= ALL ==> Code(Flip(e, a)) != stored)
  {
    var s := Code(e) ^ stored;
    assert s == Difference(Code(e), stored);
    EqualIffNoDifference(Code(e), stored);
    FlipExplains(e, Low(s), stored);
    forall a | a <= ALL && Code(Flip(e, a)) == stored ensures Opposite(s) {
      FlipExplains(e, a, stored);
      PackOpposite(a);
    }
    hide Code, Flip, Pack, Low;
  }

  lemma {:induction false} BlankSum(d: Block, k: bv16, mask: bv16)
    requires k <= 256 && forall i :: 0 <= i < 256 ==> d[i] == 0
    ensures ByteSum(d, k, mask) == 0
    decreases k as int
  {
    if k > 0 {
      BlankSum(d, k - 1, mask);
      BlankByte((k - 1) << 3, mask);
      hide BitSum;
    }
  }

  /** The gap is real: one wrong bit in a block of zeros goes uncorrected and unreported. */
  lemma {:induction false} UnseenError(d: Block, a: bv16)
    requires a <= ALL && forall i :: 0 <= i < 256 ==> d[i] == 0
    ensures Code(d) == 0 && Flip(d, a) != d && Corrected(Flip(d, a), Code(d), Code(Flip(d, a))) == (Flip(d, a), 0)
  {
    BlankSum(d, 256, 0);
    BlankSum(d, 256, ALL);
    FlipTwice(d, a);
    OneBitWrong(d, a);
  }

  // ---------------------------------------------------------------- from writing a page to reading it back

  /** What the controller's registers hold after the two blocks went past, in their low 11 bits. */
  predicate Registers(r: seq<bv16>, d0: Block, d1: Block) {
    && |r| == 4
    && r[0] & ALL == Parity(d0) && r[1] & ALL == ComplementParity(d0)
    && r[2] & ALL == Parity(d1) && r[3] & ALL == ComplementParity(d1)
  }

  /** What reading makes of a half whose bit at address a is wrong: all right again when neither code is zero. */
  function ReadBack(d: Block, a: bv16): Block
    requires a <= ALL
  {
    if Code(d) != 0 && Code(Flip(d, a)) != 0 then d else Flip(d, a)
  }

  /** The code bytes are the codes of the two blocks. */
  method CalculateCodes(r: seq<bv16>, ghost d0: Block, ghost d1: Block) returns (eccCode: seq<bv8>)
    requires Registers(r, d0, d1)
    ensures |eccCode| == 6 && Word(eccCode[..3]) == Code(d0) && Word(eccCode[3..]) == Code(d1)
  {
    hide Word, Parity, ComplementParity, Pack;
    eccCode := CalculateEcc(r[0], r[1], r[2], r[3], 512);
  }

  method ReadTwoHalves(dat: array<bv8>, off: nat, written: seq<bv16>, read: seq<bv16>, ghost d0: Block, ghost d1: Block,
                       ghost e0: Block, ghost e1: Block)
    returns (ret: bv32)
    requires off + 512 <= dat.Length && dat[off..off + 256] == e0 && dat[off + 256..off + 512] == e1
    requires Registers(written, d0, d1) && Registers(read, e0, e1)
    modifies dat
    ensures
      var first, second := Corrected(e0, Code(d0), Code(e0)), Corrected(e1, Code(d1), Code(e1));
      && dat[off..off + 256] == first.0 && dat[off + 256..off + 512] == second.0 && ret == first.1 | second.1
    ensures dat[..off] == old(dat[..off]) && dat[off + 512..] == old(dat[off + 512..])
  {
    hide Corrected, Word, Code, Registers;
    var stored := CalculateCodes(written, d0, d1);
    var calced := CalculateCodes(read, e0, e1);
    ret := CorrectData(dat, off, 512, stored, calced);
  }

  /**
    512 bytes are written with the code bytes computed meanwhile, and come back with one wrong bit in each half:
    computing the code bytes of what came back and correcting with both gives the bytes written and the result 0,
    half by half exactly when the codes of that half are not zero.
  */
  method OneBitWrongInEachHalf(dat: array<bv8>, off: nat, written: seq<bv16>, read: seq<bv16>, ghost d0: Block,
                               ghost d1: Block, ghost a0: bv16, ghost a1: bv16)
    returns (ret: bv32)
    requires a0 <= ALL && a1 <= ALL && off + 512 <= dat.Length
    requires dat[off..off + 256] == Flip(d0, a0) && dat[off + 256..off + 512] == Flip(d1, a1)
    requires Registers(written, d0, d1) && Registers(read, Flip(d0, a0), Flip(d1, a1))
    modifies dat
    ensures ret == 0 && dat[off..off + 256] == ReadBack(d0, a0) && dat[off + 256..off + 512] == ReadBack(d1, a1)
    ensures dat[..off] == old(dat[..off]) && dat[off + 512..] == old(dat[off + 512..])
  {
    OneBitWrong(d0, a0);
    OneBitWrong(d1, a1);
    hide Corrected, Code, Flip, Registers;
    ret := ReadTwoHalves(dat, off, written, read, d0, d1, Flip(d0, a0), Flip(d1, a1));
  }
}
