/**
  Physical region page lists of kernel/nvme.c: building them from a scatter list (nvme_setup_prps),
  releasing them (nvme_free_iod) and bounding their number (nvme_npages), against a controller that
  decodes them as section 4.3 of NVM Express 1.2 prescribes.
*/
module NvmePrp {
  import opened Common

  const PAGE_SIZE: nat := 4096
  const WORDS: nat := 512        // 64-bit words in a page
  const SMALL_WORDS: nat := 32   // 64-bit words in an element of the small pool

  /** A piece of the data buffer as the device sees it. */
  datatype Segment = Segment(addr: nat, len: nat)

  datatype Pool = SmallPool | PagePool

  /** A successful dma_pool_alloc: the CPU pointer and the bus address of the memory. */
  datatype Grant = Grant(ptr: nat, dma: nat)

  // ---------------------------------------------------------------- the data buffer

  function Total(sg: seq<Segment>): nat {
    if sg == [] then 0 else sg[0].len + Total(sg[1..])
  }

  /** Bus address of byte k of the buffer. */
  function ByteAt(sg: seq<Segment>, k: nat): nat
    requires k < Total(sg)
  {
    if k < sg[0].len then sg[0].addr + k else ByteAt(sg[1..], k - sg[0].len)
  }

  /** No holes: every boundary between two segments is a page boundary on both sides. */
  predicate NoHoles(sg: seq<Segment>) {
    && |sg| > 0
    && (forall i :: 0 <= i < |sg| ==> sg[i].len > 0)
    && (forall i :: 0 < i < |sg| ==> sg[i].addr % PAGE_SIZE == 0)
    && (forall i :: 0 <= i < |sg| - 1 ==> (sg[i].addr + sg[i].len) % PAGE_SIZE == 0)
  }

  /** Bytes x .. x+w of the buffer are at a .. a+w. */
  ghost predicate Covers(sg: seq<Segment>, x: nat, a: nat, w: nat) {
    x + w <= Total(sg) && forall k :: x <= k < x + w ==> ByteAt(sg, k) == a + (k - x)
  }

  /** The buffer without its first d bytes, which lie in the first segment. */
  function Drop(sg: seq<Segment>, d: nat): seq<Segment>
    requires |sg| > 0 && d <= sg[0].len
  {
    if d < sg[0].len then [Segment(sg[0].addr + d, sg[0].len - d)] + sg[1..] else sg[1..]
  }

  lemma {:induction false} DropShifts(sg: seq<Segment>, d: nat)
    requires |sg| > 0 && d <= sg[0].len
    ensures Total(Drop(sg, d)) == Total(sg) - d
    ensures forall k :: 0 <= k < Total(sg) - d ==> ByteAt(Drop(sg, d), k) == ByteAt(sg, d + k)
  {
    if d < sg[0].len {
      assert Drop(sg, d)[1..] == sg[1..];
    }
  }

  lemma {:induction false} FirstLenWithinTotal(sg: seq<Segment>)
    requires |sg| > 0
    ensures sg[0].len <= Total(sg)
    ensures |sg| > 1 && sg[1].len > 0 ==> sg[0].len < Total(sg)
  {
    if |sg| > 1 {
      assert Total(sg[1..]) == sg[1].len + Total(sg[1..][1..]);
    }
  }

  // ---------------------------------------------------------------- the controller

  /** Entry e of a list of n entries that starts at bus address d. A list runs to the end of its memory
      page; when more entries remain than fit, the last word of the page points to the next list. */
  function ListEntry(pages: map<nat, seq<nat>>, bus: map<nat, nat>, d: nat, e: nat, n: nat): Option<nat>
    decreases n
  {
    var cap := WORDS - (d % PAGE_SIZE) / 8;
    if d !in bus || bus[d] !in pages || e >= n then None else
      var words := pages[bus[d]];
      if n <= cap || e < cap - 1 then
        if e < |words| then Some(words[e]) else None
      else if 1 < cap <= |words| then
        ListEntry(pages, bus, words[cap - 1], e - (cap - 1), n - (cap - 1))
      else None
  }

  /** Where the controller finds byte k of a transfer of len bytes. Only prp1 may have a page offset. */
  function Decode(prp1: nat, prp2: nat, pages: map<nat, seq<nat>>, bus: map<nat, nat>, len: nat, k: nat): Option<nat> {
    var first := PAGE_SIZE - prp1 % PAGE_SIZE;
    if k < first then Some(prp1 + k)
    else if len <= first + PAGE_SIZE then
      if prp2 % PAGE_SIZE == 0 then Some(prp2 + (k - first)) else None
    else
      match ListEntry(pages, bus, prp2, (k - first) / PAGE_SIZE, (len - first + PAGE_SIZE - 1) / PAGE_SIZE)
      case None => None
      case Some(a) => if a % PAGE_SIZE == 0 then Some(a + (k - first) % PAGE_SIZE) else None
  }

  // ---------------------------------------------------------------- list pages in memory

  function Write(pages: map<nat, seq<nat>>, ptr: nat, i: nat, v: nat): map<nat, seq<nat>>
    requires ptr in pages && i < |pages[ptr]|
  {
    var words: seq<nat> := pages[ptr][i := v];
    pages[ptr := words]
  }

  ghost predicate Distinct(g: seq<Grant>) {
    forall j, k :: 0 <= j < k < |g| ==> g[j].ptr != g[k].ptr
  }

  /** The pages g hold the entries e: i words are used in the last page, every earlier page holds
      WORDS - 1 entries and the bus address of the page after it. */
  ghost predicate Laid(pages: map<nat, seq<nat>>, g: seq<Grant>, words: nat, e: seq<nat>, i: nat) {
    && |g| > 0 && i <= words && (words == WORDS || (words == SMALL_WORDS && |g| == 1))
    && Distinct(g)
    && (forall j :: 0 <= j < |g| ==> g[j].ptr in pages && |pages[g[j].ptr]| == words)
    && |e| == (WORDS - 1) * (|g| - 1) + i
    && (forall j, s {:trigger pages[g[j].ptr][s]} :: 0 <= j < |g| - 1 && 0 <= s < WORDS - 1 ==>
          pages[g[j].ptr][s] == e[(WORDS - 1) * j + s])
    && (forall j :: 0 <= j < |g| - 1 ==> pages[g[j].ptr][WORDS - 1] == g[j + 1].dma)
    && (forall s {:trigger pages[g[|g| - 1].ptr][s]} :: 0 <= s < i ==>
          pages[g[|g| - 1].ptr][s] == e[(WORDS - 1) * (|g| - 1) + s])
  }

  lemma {:induction false} LaidCount(pages: map<nat, seq<nat>>, g: seq<Grant>, words: nat, e: seq<nat>, i: nat)
    requires Laid(pages, g, words, e, i)
    ensures |g| > 0 && |e| == (WORDS - 1) * (|g| - 1) + i && i <= words
  {
  }

  lemma {:induction false} LaidPush(pages: map<nat, seq<nat>>, g: seq<Grant>, words: nat, e: seq<nat>, i: nat, a: nat)
    requires Laid(pages, g, words, e, i) && i < words
    ensures var p := g[|g| - 1].ptr;
      Laid(Write(pages, p, i, a), g, words, e + [a], i + 1)
  {
  }

  lemma {:induction false} LaidChain(pages: map<nat, seq<nat>>, g: seq<Grant>, e: seq<nat>, h: Grant, blank: seq<nat>)
    requires Laid(pages, g, WORDS, e, WORDS) && |blank| == WORDS
    requires forall j :: 0 <= j < |g| ==> g[j].ptr != h.ptr
    ensures var p := g[|g| - 1].ptr;
      Laid(Write(Write(pages[h.ptr := blank], h.ptr, 0, pages[p][WORDS - 1]), p, WORDS - 1, h.dma),
           g + [h], WORDS, e, 1)
  {
  }

  /** A list from the small pool does not cross a page boundary. */
  lemma {:induction false} SmallListFits(d: nat)
    requires d % (8 * SMALL_WORDS) == 0
    ensures SMALL_WORDS <= WORDS - (d % PAGE_SIZE) / 8
  {
    var r := d / 256 - 16 * (d / 4096);
    assert d % 4096 == 256 * r;
  }

  /** The controller reads back exactly the entries laid out, whichever way building the list ended. */
  lemma {:induction false} ListDecodes(pages: map<nat, seq<nat>>, bus: map<nat, nat>, g: seq<Grant>, words: nat,
                                       e: seq<nat>, i: nat, j: nat, k: nat)
    requires Laid(pages, g, words, e, i) && j < |g| && (|g| > 1 ==> i >= 2)
    requires forall x :: 0 <= x < |g| ==> g[x].dma in bus && bus[g[x].dma] == g[x].ptr
    requires forall x :: 0 <= x < |g| ==> g[x].dma % (if words == WORDS then PAGE_SIZE else 8 * SMALL_WORDS) == 0
    requires (WORDS - 1) * j <= k < |e|
    ensures ListEntry(pages, bus, g[j].dma, k - (WORDS - 1) * j, |e| - (WORDS - 1) * j) == Some(e[k])
    decreases |g| - j
  {
    var cap := WORDS - (g[j].dma % PAGE_SIZE) / 8;
    var n := |e| - (WORDS - 1) * j;
    if j < |g| - 1 {
      assert cap == WORDS < n;
      if k < (WORDS - 1) * (j + 1) {
        assert pages[g[j].ptr][k - (WORDS - 1) * j] == e[k];
      } else {
        ListDecodes(pages, bus, g, words, e, i, j + 1, k);
      }
    } else {
      SmallListFits(g[j].dma);
      assert n == i <= cap;
      assert pages[g[j].ptr][k - (WORDS - 1) * j] == e[k];
    }
  }

  // ---------------------------------------------------------------- walking the scatter list

  /** A piece of memory that ends at a page boundary reaches the end of its first page. */
  lemma {:induction false} ReachesPageEnd(addr: nat, len: nat)
    requires len > 0 && (addr + len) % PAGE_SIZE == 0
    ensures len >= PAGE_SIZE - addr % PAGE_SIZE
  {
  }

  lemma {:induction false} DropToPage(sg: seq<Segment>, w: nat)
    requires NoHoles(sg) && w <= sg[0].len && w < Total(sg) && (sg[0].addr + w) % PAGE_SIZE == 0
    ensures NoHoles(Drop(sg, w)) && Drop(sg, w)[0].addr % PAGE_SIZE == 0
  {
    var r := Drop(sg, w);
    if w < sg[0].len {
      assert forall i :: 0 < i < |r| ==> r[i] == sg[i];
      assert |sg| > 1 ==> r[0].addr + r[0].len == sg[0].addr + sg[0].len;
    } else {
      assert Total(sg[1..]) > 0 && |sg| > 1;
      assert forall i :: 0 <= i < |r| ==> r[i] == sg[i + 1];
    }
  }

  /** The first page-bounded chunk of a buffer without holes lies in the first segment. */
  lemma {:induction false} NextChunk(sg: seq<Segment>)
    requires NoHoles(sg)
    ensures var w := PAGE_SIZE - sg[0].addr % PAGE_SIZE;
      && (forall k :: 0 <= k < w && k < Total(sg) ==> ByteAt(sg, k) == sg[0].addr + k)
      && (w < Total(sg) ==> w <= sg[0].len && NoHoles(Drop(sg, w)) && Drop(sg, w)[0].addr % PAGE_SIZE == 0)
  {
    FirstLenWithinTotal(sg);
    var w := PAGE_SIZE - sg[0].addr % PAGE_SIZE;
    if |sg| == 1 {
      assert Total(sg[1..]) == 0;
    } else {
      ReachesPageEnd(sg[0].addr, sg[0].len);
    }
    if w < Total(sg) {
      DropToPage(sg, w);
    }
    hide NoHoles, Drop;
  }

  /** sg is what is left of the buffer `all` after x bytes. */
  ghost predicate Rest(all: seq<Segment>, x: nat, sg: seq<Segment>) {
    && Total(all) == x + Total(sg)
    && forall k :: 0 <= k < Total(sg) ==> ByteAt(sg, k) == ByteAt(all, x + k)
  }

  lemma {:induction false} RestDrop(all: seq<Segment>, x: nat, sg: seq<Segment>, d: nat)
    requires Rest(all, x, sg) && |sg| > 0 && d <= sg[0].len
    ensures Rest(all, x + d, Drop(sg, d))
  {
    DropShifts(sg, d);
    forall k | 0 <= k < Total(Drop(sg, d)) ensures ByteAt(Drop(sg, d), k) == ByteAt(all, x + d + k) {
      assert ByteAt(sg, d + k) == ByteAt(all, x + (d + k));
    }
  }

  lemma {:induction false} RestCovers(all: seq<Segment>, x: nat, sg: seq<Segment>, w: nat)
    requires Rest(all, x, sg) && NoHoles(sg) && w <= Total(sg) && w <= PAGE_SIZE - sg[0].addr % PAGE_SIZE
    ensures Covers(all, x, sg[0].addr, w)
  {
    NextChunk(sg);
    forall k | x <= k < x + w ensures ByteAt(all, k) == sg[0].addr + (k - x) {
      assert ByteAt(sg, k - x) == ByteAt(all, x + (k - x));
    }
  }

  function Min(a: int, b: int): int { if a < b then a else b }

  /** Entry q of the list maps the q-th page-sized piece after the first chunk. */
  ghost predicate Maps(all: seq<Segment>, first: nat, length: nat, e: seq<nat>) {
    && length <= Total(all)
    && forall q :: 0 <= q < |e| ==>
         && e[q] % PAGE_SIZE == 0
         && first + PAGE_SIZE * q <= length
         && Covers(all, first + PAGE_SIZE * q, e[q], Min(PAGE_SIZE, length - first - PAGE_SIZE * q))
  }

  lemma {:induction false} NothingMapped(all: seq<Segment>, first: nat)
    requires first <= Total(all)
    ensures Maps(all, first, first, [])
  {
  }

  /** The first chunk and the pieces the entries e map, the last one perhaps not to its end, are exactly the
      first length bytes, and more than two pages. */
  ghost predicate MakesUp(all: seq<Segment>, first: nat, length: nat, e: seq<nat>) {
    && Maps(all, first, length, e)
    && first + PAGE_SIZE < length
    && PAGE_SIZE * (|e| - 1) < length - first <= PAGE_SIZE * |e|
  }

  /** A transfer of length bytes through a list decodes to the first length bytes of the buffer. */
  lemma {:induction false} TransferDecodes(all: seq<Segment>, pages: map<nat, seq<nat>>, bus: map<nat, nat>,
                                           g: seq<Grant>, words: nat, e: seq<nat>, i: nat, length: nat, k: nat)
    requires NoHoles(all) && k < length
    requires Laid(pages, g, words, e, i) && (|g| > 1 ==> i >= 2)
    requires forall x :: 0 <= x < |g| ==> g[x].dma in bus && bus[g[x].dma] == g[x].ptr
    requires forall x :: 0 <= x < |g| ==> g[x].dma % (if words == WORDS then PAGE_SIZE else 8 * SMALL_WORDS) == 0
    requires MakesUp(all, PAGE_SIZE - all[0].addr % PAGE_SIZE, length, e)
    ensures Decode(all[0].addr, g[0].dma, pages, bus, length, k) == Some(ByteAt(all, k))
  {
    var first := PAGE_SIZE - all[0].addr % PAGE_SIZE;
    if k < first {
      NextChunk(all);
    } else {
      var q := (k - first) / PAGE_SIZE;
      assert |e| == (length - first + PAGE_SIZE - 1) / PAGE_SIZE;
      ListDecodes(pages, bus, g, words, e, i, 0, q);
      assert Covers(all, first + PAGE_SIZE * q, e[q], Min(PAGE_SIZE, length - first - PAGE_SIZE * q));
      assert k == first + PAGE_SIZE * q + (k - first) % PAGE_SIZE;
    }
  }

  // ---------------------------------------------------------------- the driver's objects

  function DivRoundUp(a: nat, b: nat): nat
    requires b > 0
  {
    (a + b - 1) / b
  }

  /** nvme_npages: how many list pages to make room for. */
  function NvmePages(size: nat): nat {
    DivRoundUp(8 * DivRoundUp(size + PAGE_SIZE, PAGE_SIZE), PAGE_SIZE - 8)
  }

  /** It is the least number of pages that can hold one entry for every page of size bytes and one more, when each
      page gives a word to the chain. */
  lemma {:induction false} PagesAreLeast(size: nat)
    ensures var n := NvmePages(size);
      n >= 1 && PAGE_SIZE * (WORDS - 1) * (n - 1) < size + PAGE_SIZE <= PAGE_SIZE * (WORDS - 1) * n
  {
  }

  lemma {:induction false} MoreBytesMorePages(a: nat, b: nat)
    requires a <= b
    ensures NvmePages(a) <= NvmePages(b)
  {
  }

  function PoolWords(pool: Pool): nat {
    if pool.SmallPool? then SMALL_WORDS else WORDS
  }

  /** The memory handed out by both pools: contents by CPU pointer, and the bus address of each piece. `live` holds
      the allocations not freed yet. */
  class Dev {
    var pages: map<nat, seq<nat>>
    var bus: map<nat, nat>
    ghost var live: set<(Pool, nat, nat)>

    constructor ()
      ensures pages == map[] && bus == map[] && live == {}
    {
      pages, bus, live := map[], map[], {};
    }

    /** What the allocator may hand out next: not handed out now, aligned to the size of the pool's elements. */
    ghost predicate Available(pool: Pool, g: seq<Grant>)
      reads this
    {
      && Distinct(g)
      && (forall j, k :: 0 <= j < k < |g| ==> g[j].dma != g[k].dma)
      && (forall j :: 0 <= j < |g| ==>
            && g[j].ptr !in pages && g[j].dma !in bus
            && g[j].dma % (8 * PoolWords(pool)) == 0
            && (pool, g[j].ptr, g[j].dma) !in live)
    }

    /** dma_pool_alloc when it succeeds; the memory is not cleared. */
    method PoolAlloc(pool: Pool, g: Grant)
      requires Available(pool, [g])
      modifies this
      ensures g.ptr in pages && pages == old(pages)[g.ptr := pages[g.ptr]] && |pages[g.ptr]| == PoolWords(pool)
      ensures bus == old(bus)[g.dma := g.ptr]
      ensures live == old(live) + {(pool, g.ptr, g.dma)}
    {
      var zeros: seq<nat> := seq(PoolWords(pool), _ => 0);
      assert |zeros| == PoolWords(pool);
      var words: seq<nat> :| |words| == PoolWords(pool);
      pages := pages[g.ptr := words];
      bus := bus[g.dma := g.ptr];
      live := live + {(pool, g.ptr, g.dma)};
    }

    /** dma_pool_free: callers must pass a live allocation with its own pool and address. */
    method PoolFree(pool: Pool, ptr: nat, dma: nat)
      requires (pool, ptr, dma) in live
      modifies this
      ensures pages == old(pages) - {ptr} && bus == old(bus) - {dma} && live == old(live) - {(pool, ptr, dma)}
    {
      pages := pages - {ptr};
      bus := bus - {dma};
      live := live - {(pool, ptr, dma)};
    }
  }

  /** nvme_iod. */
  class Iod {
    const sg: seq<Segment>
    const list: array<nat>
    var npages: int
    var firstDma: nat

    constructor (sg: seq<Segment>, nbytes: nat)
      ensures this.sg == sg && npages == -1 && fresh(list) && list.Length == NvmePages(nbytes)
    {
      this.sg := sg;
      list := new nat[NvmePages(nbytes)];
      npages, firstDma := -1, 0;
    }
  }

  // ---------------------------------------------------------------- building the list

  ghost function Pairs(pool: Pool, g: seq<Grant>): set<(Pool, nat, nat)> {
    set x | x in g :: (pool, x.ptr, x.dma)
  }

  ghost function Ptrs(g: seq<Grant>): set<nat> {
    set x | x in g :: x.ptr
  }

  ghost function Dmas(g: seq<Grant>): set<nat> {
    set x | x in g :: x.dma
  }

  /** How a built list is recorded in the iod for nvme_free_iod: npages is -1 without a list, 0 for a small
      one; each page's last word is the bus address of the next page. */
  ghost predicate Records(iod: Iod, dev: Dev, pool: Pool, g: seq<Grant>)
    reads iod, iod.list, dev
  {
    && (g == [] ==> iod.npages == -1)
    && (g != [] ==>
          && iod.firstDma == g[0].dma
          && iod.npages == (if pool.SmallPool? then 0 else |g|)
          && (pool.SmallPool? ==> |g| == 1))
    && Distinct(g)
    && |g| <= iod.list.Length
    && (forall j :: 0 <= j < |g| ==>
          && iod.list[j] == g[j].ptr && g[j].ptr in dev.pages
          && |dev.pages[g[j].ptr]| == PoolWords(pool)
          && (pool, g[j].ptr, g[j].dma) in dev.live)
    && (forall j :: 0 <= j < |g| - 1 ==> dev.pages[g[j].ptr][WORDS - 1] == g[j + 1].dma)
  }

  /** One turn of the loop: the current position becomes an entry, and the walk moves on by one page. */
  lemma {:induction false} EntryMaps(all: seq<Segment>, first: nat, e: seq<nat>, rest: seq<Segment>)
    requires var done := first + PAGE_SIZE * |e|;
      Rest(all, done, rest) && Maps(all, first, done, e)
    requires NoHoles(rest) && rest[0].addr % PAGE_SIZE == 0
    ensures var done := first + PAGE_SIZE * |e|;
      && Maps(all, first, Min(done + PAGE_SIZE, Total(all)), e + [rest[0].addr])
      && (PAGE_SIZE < Total(rest) ==>
            && PAGE_SIZE <= rest[0].len && (rest[0].len == PAGE_SIZE ==> |rest| > 1)
            && Rest(all, done + PAGE_SIZE, Drop(rest, PAGE_SIZE))
            && NoHoles(Drop(rest, PAGE_SIZE)) && Drop(rest, PAGE_SIZE)[0].addr % PAGE_SIZE == 0)
  {
    var done := first + PAGE_SIZE * |e|;
    var length := Min(done + PAGE_SIZE, Total(all));
    var e' := e + [rest[0].addr];
    FirstLenWithinTotal(rest);
    NextChunk(rest);
    RestCovers(all, done, rest, Min(PAGE_SIZE, Total(rest)));
    forall q | 0 <= q < |e'|
      ensures && e'[q] % PAGE_SIZE == 0
              && first + PAGE_SIZE * q <= length
              && Covers(all, first + PAGE_SIZE * q, e'[q], Min(PAGE_SIZE, length - first - PAGE_SIZE * q))
    {
      if q < |e| {
        assert e'[q] == e[q];
      }
    }
    if PAGE_SIZE < Total(rest) {
      RestDrop(all, done, rest, PAGE_SIZE);
    }
  }

  /** Room for one more list page is left whenever the current one is full and data remains. */
  lemma {:induction false} RoomForPage(total: nat, first: nat, entries: nat, g: nat)
    requires 0 < first && g >= 1 && entries == (WORDS - 1) * (g - 1) + WORDS
    requires first + PAGE_SIZE * entries < total
    ensures g < NvmePages(total)
  {
  }

  /** The state of the walk over the scatter list: len bytes are left, starting at dmaAddr with dmaLen bytes
      before the end of segment sg[0]; the bytes before them are the first chunk and the entries e. */
  ghost predicate Walk(all: seq<Segment>, first: nat, len: int, sg: seq<Segment>, dmaAddr: nat, dmaLen: int,
                       e: seq<nat>) {
    && 0 < len && 0 < dmaLen && sg != []
    && 0 < first
    && first + PAGE_SIZE * |e| + len == Total(all)
    && var rest := [Segment(dmaAddr, dmaLen)] + sg[1..];
    && NoHoles(rest) && dmaAddr % PAGE_SIZE == 0
    && Rest(all, first + PAGE_SIZE * |e|, rest)
    && Maps(all, first, first + PAGE_SIZE * |e|, e)
  }

  /** The memory and what had been allocated before the call. */
  datatype Before = Before(pages: map<nat, seq<nat>>, bus: map<nat, nat>, live: set<(Pool, nat, nat)>)

  /** The pages used are exactly what was allocated since, no other memory has changed, and the iod records them. */
  ghost predicate Recorded(dev: Dev, iod: Iod, was: Before, pool: Pool, used: seq<Grant>)
    reads dev, iod, iod.list
  {
    && used != []
    && Ptrs(used) <= dev.pages.Keys && dev.pages - Ptrs(used) == was.pages
    && dev.bus - Dmas(used) == was.bus
    && (forall x :: 0 <= x < |used| ==>
          && used[x].dma in dev.bus && dev.bus[used[x].dma] == used[x].ptr
          && used[x].dma % (8 * PoolWords(pool)) == 0)
    && dev.live == was.live + Pairs(pool, used) && was.live !! Pairs(pool, used)
    && |used| <= iod.list.Length && (forall j :: 0 <= j < |used| ==> iod.list[j] == used[j].ptr)
    && iod.npages == (if pool.SmallPool? then 0 else |used|)
    && iod.firstDma == used[0].dma
  }

  /** In addition they hold the entries e. */
  ghost predicate Holding(dev: Dev, iod: Iod, was: Before, pool: Pool, used: seq<Grant>, e: seq<nat>, i: nat)
    reads dev, iod, iod.list
  {
    Recorded(dev, iod, was, pool, used) && Laid(dev.pages, used, PoolWords(pool), e, i)
  }

  /** What the allocator may give was not in use before. */
  ghost predicate Unused(was: Before, pool: Pool, g: seq<Grant>) {
    && Distinct(g)
    && (forall j, k :: 0 <= j < k < |g| ==> g[j].dma != g[k].dma)
    && (forall j :: 0 <= j < |g| ==>
          && g[j].ptr !in was.pages && g[j].dma !in was.bus
          && g[j].dma % (8 * PoolWords(pool)) == 0
          && (pool, g[j].ptr, g[j].dma) !in was.live)
  }

  lemma {:induction false} NextIsAvailable(dev: Dev, iod: Iod, was: Before, pool: Pool, used: seq<Grant>, g: seq<Grant>)
    requires Recorded(dev, iod, was, pool, used) && Unused(was, pool, g) && used < g
    ensures dev.Available(pool, [g[|used|]])
  {
    var h := g[|used|];
    assert forall j :: 0 <= j < |used| ==> used[j] == g[j];
    assert h.ptr !in Ptrs(used) && h.dma !in Dmas(used);
    assert was.pages.Keys == dev.pages.Keys - Ptrs(used);
    assert was.bus.Keys == dev.bus.Keys - Dmas(used);
  }

  /** prp_list[i] = a. */
  method Append(dev: Dev, iod: Iod, ghost was: Before, ghost pool: Pool, ghost used: seq<Grant>, ghost e: seq<nat>,
                prpList: nat, i: nat, a: nat)
    requires Holding(dev, iod, was, pool, used, e, i)
    requires i < PoolWords(pool) && prpList == used[|used| - 1].ptr
    modifies dev`pages
    ensures Holding(dev, iod, was, pool, used, e + [a], i + 1)
  {
    LaidPush(dev.pages, used, PoolWords(pool), e, i, a);
    dev.pages := Write(dev.pages, prpList, i, a);
  }

  /** Moves the last entry of a full page to the new page h and puts the bus address of h in its place. */
  method MoveLast(dev: Dev, ghost pages0: map<nat, seq<nat>>, ghost used: seq<Grant>, ghost e: seq<nat>,
                  oldPrpList: nat, h: Grant)
    requires Laid(pages0, used, WORDS, e, WORDS) && oldPrpList == used[|used| - 1].ptr
    requires h.ptr !in pages0 && h.ptr in dev.pages && |dev.pages[h.ptr]| == WORDS
    requires dev.pages == pages0[h.ptr := dev.pages[h.ptr]]
    modifies dev`pages
    ensures Laid(dev.pages, used + [h], WORDS, e, 1)
    ensures dev.pages.Keys == old(dev.pages.Keys)
    ensures forall p :: p in dev.pages && p != oldPrpList && p != h.ptr ==> dev.pages[p] == old(dev.pages[p])
  {
    LaidChain(pages0, used, e, h, dev.pages[h.ptr]);
    dev.pages := Write(dev.pages, h.ptr, 0, dev.pages[oldPrpList][WORDS - 1]);
    dev.pages := Write(dev.pages, oldPrpList, WORDS - 1, h.dma);
  }

  lemma {:induction false} PairsAppend(pool: Pool, g: seq<Grant>, h: Grant)
    ensures Pairs(pool, g + [h]) == Pairs(pool, g) + {(pool, h.ptr, h.dma)}
    ensures Ptrs(g + [h]) == Ptrs(g) + {h.ptr}
    ensures Dmas(g + [h]) == Dmas(g) + {h.dma}
  {
    assert forall x :: x in g + [h] <==> x in g || x == h;
  }

  /** A further list page is allocated and recorded in the iod. */
  method AddPage(dev: Dev, iod: Iod, ghost was: Before, ghost used: seq<Grant>, h: Grant)
    requires Recorded(dev, iod, was, PagePool, used) && |used| < iod.list.Length
    requires dev.Available(PagePool, [h]) && (PagePool, h.ptr, h.dma) !in was.live
    modifies dev, iod`npages, iod.list
    ensures Recorded(dev, iod, was, PagePool, used + [h])
    ensures h.ptr !in old(dev.pages) && h.ptr in dev.pages && |dev.pages[h.ptr]| == WORDS
    ensures dev.pages == old(dev.pages)[h.ptr := dev.pages[h.ptr]]
  {
    assert [h][0] == h && h.ptr !in dev.pages;
    PairsAppend(PagePool, used, h);
    hide Pairs, Distinct;
    dev.PoolAlloc(PagePool, h);
    iod.list[iod.npages] := h.ptr;
    iod.npages := iod.npages + 1;
  }

  /** The list page is full: a new page is allocated and linked in. */
  method Chain(dev: Dev, iod: Iod, ghost was: Before, ghost used: seq<Grant>, ghost e: seq<nat>, oldPrpList: nat,
               h: Grant)
    requires Holding(dev, iod, was, PagePool, used, e, WORDS)
    requires oldPrpList == used[|used| - 1].ptr && |used| < iod.list.Length
    requires dev.Available(PagePool, [h]) && (PagePool, h.ptr, h.dma) !in was.live
    modifies dev, iod`npages, iod.list
    ensures Holding(dev, iod, was, PagePool, used + [h], e, 1)
  {
    hide Laid, Pairs;
    ghost var pages0 := dev.pages;
    AddPage(dev, iod, was, used, h);
    assert h in used + [h] && used[|used| - 1] in used + [h];
    MoveLast(dev, pages0, used, e, oldPrpList, h);
  }

  /** The first list page. */
  method FirstPage(dev: Dev, iod: Iod, ghost was: Before, pool: Pool, grants: seq<Grant>)
    requires grants != [] && dev.Available(pool, grants) && iod.list.Length > 0
    requires was == Before(dev.pages, dev.bus, dev.live)
    requires iod.npages == if pool.SmallPool? then 0 else 1
    modifies dev, iod`firstDma, iod.list
    ensures Holding(dev, iod, was, pool, [grants[0]], [], 0)
  {
    var g := grants[0];
    assert [g][0] == g;
    dev.PoolAlloc(pool, g);
    iod.list[0] := g.ptr;
    iod.firstDma := g.dma;
    assert Laid(dev.pages, [g], PoolWords(pool), [], 0);
  }

  lemma {:induction false} WalkStep(all: seq<Segment>, first: nat, len: int, sg: seq<Segment>, dmaAddr: nat,
                                    dmaLen: int, e: seq<nat>)
    requires Walk(all, first, len, sg, dmaAddr, dmaLen, e)
    ensures len <= PAGE_SIZE ==> Maps(all, first, Total(all), e + [dmaAddr])
    ensures len > PAGE_SIZE ==>
      && dmaLen >= PAGE_SIZE
      && (dmaLen > PAGE_SIZE ==>
            Walk(all, first, len - PAGE_SIZE, sg, dmaAddr + PAGE_SIZE, dmaLen - PAGE_SIZE, e + [dmaAddr]))
      && (dmaLen == PAGE_SIZE ==>
            |sg| > 1 && Walk(all, first, len - PAGE_SIZE, sg[1..], sg[1].addr, sg[1].len, e + [dmaAddr]))
  {
    var rest := [Segment(dmaAddr, dmaLen)] + sg[1..];
    EntryMaps(all, first, e, rest);
    assert |e + [dmaAddr]| == |e| + 1;
    if len > PAGE_SIZE {
      if dmaLen > PAGE_SIZE {
        assert Drop(rest, PAGE_SIZE) == [Segment(dmaAddr + PAGE_SIZE, dmaLen - PAGE_SIZE)] + sg[1..];
      } else {
        assert Drop(rest, PAGE_SIZE) == [Segment(sg[1].addr, sg[1].len)] + sg[1..][1..];
      }
    }
  }

  /** Without a list, prp2 points to the second and last page of the transfer. */
  lemma {:induction false} TwoPagesDecode(all: seq<Segment>, first: nat, prp2: nat, length: nat)
    requires NoHoles(all) && all[0].addr % PAGE_SIZE + first == PAGE_SIZE
    requires first < length <= first + PAGE_SIZE && Maps(all, first, length, [prp2])
    ensures forall pages, bus, k :: 0 <= k < length ==>
      Decode(all[0].addr, prp2, pages, bus, length, k) == Some(ByteAt(all, k))
  {
    NextChunk(all);
    assert [prp2][0] == prp2;
    assert Covers(all, first, prp2, length - first);
  }

  /** Both ways of leaving the loop: the entries written so far make up the transfer reported. */
  lemma {:induction false} ListDone(dev: Dev, iod: Iod, was: Before, all: seq<Segment>, first: nat, length: nat,
                                    pool: Pool, used: seq<Grant>, e: seq<nat>, i: nat)
    requires NoHoles(all) && all[0].addr % PAGE_SIZE + first == PAGE_SIZE
    requires Holding(dev, iod, was, pool, used, e, i) && (|used| > 1 ==> i >= 2)
    requires MakesUp(all, first, length, e)
    ensures forall k :: 0 <= k < length ==>
      Decode(all[0].addr, used[0].dma, dev.pages, dev.bus, length, k) == Some(ByteAt(all, k))
    ensures Records(iod, dev, pool, used)
  {
    forall k | 0 <= k < length
      ensures Decode(all[0].addr, used[0].dma, dev.pages, dev.bus, length, k) == Some(ByteAt(all, k))
    {
      TransferDecodes(all, dev.pages, dev.bus, used, PoolWords(pool), e, i, length, k);
    }
  }

  /** How many entries fit into n chained list pages: each page but the last gives its last word to the chain. */
  function Capacity(n: nat): nat {
    if n == 0 then 0 else (WORDS - 1) * (n - 1) + WORDS
  }

  /**
    What a transfer of totalLen bytes gets of what the two pools will still grant: no list for at most two pages; one
    page of the small pool for up to 32 entries; otherwise as many pages of the page pool as the entries need. It is
    cut short after two pages when the pool grants nothing, and after the entries of all its pages otherwise.
  */
  ghost predicate Outcome(sg: seq<Segment>, totalLen: nat, small: seq<Grant>, large: seq<Grant>, pool: Pool,
                          used: seq<Grant>, length: nat)
    requires sg != []
  {
    var first := PAGE_SIZE - sg[0].addr % PAGE_SIZE;
    var rest := totalLen - first;
    if rest <= PAGE_SIZE then used == [] && length == totalLen
    else if rest <= 32 * PAGE_SIZE then
      && pool == SmallPool
      && used == (if small == [] then [] else [small[0]])
      && length == (if small == [] then first + PAGE_SIZE else totalLen)
    else
      && pool == PagePool && used <= large
      && length == (if large == [] then first + PAGE_SIZE else Min(totalLen, first + PAGE_SIZE * Capacity(|large|)))
      && (used == [] <==> large == [])
      && (used != [] ==> PAGE_SIZE * Capacity(|used| - 1) < length - first <= PAGE_SIZE * Capacity(|used|))
  }

  lemma {:induction false} CapacityGrows(m: nat, n: nat)
    requires m <= n
    ensures Capacity(m) <= Capacity(n)
  {
  }

  /** Leaving the loop, with the list complete or cut short because the pool refused. */
  lemma {:induction false} ListOutcome(all: seq<Segment>, first: nat, totalLen: nat, length: nat,
                                       pages: map<nat, seq<nat>>, grants: seq<Grant>, used: seq<Grant>, words: nat,
                                       e: seq<nat>, i: nat)
    requires MakesUp(all, first, length, e) && length <= totalLen && Laid(pages, used, words, e, i)
    requires used <= grants && (|used| > 1 ==> i >= 2)
    requires length < totalLen ==> used == grants && i == WORDS && length == first + PAGE_SIZE * |e|
    ensures words == WORDS ==> length == Min(totalLen, first + PAGE_SIZE * Capacity(|grants|))
    ensures words == WORDS ==> PAGE_SIZE * Capacity(|used| - 1) < length - first <= PAGE_SIZE * Capacity(|used|)
  {
    LaidCount(pages, used, words, e, i);
    CapacityGrows(|used|, |grants|);
    hide Laid, Maps;
  }

  /** Lines 444 to 454: one more entry, in a new list page if the current one is full. Not ok when that page
      cannot be allocated. */
  method AddEntry(dev: Dev, iod: Iod, ghost was: Before, ghost totalLen: nat, pool: Pool, grants: seq<Grant>,
                  used: seq<Grant>, ghost e: seq<nat>, prpList: nat, i: nat, dmaAddr: nat)
    returns (ok: bool, prpList': nat, i': nat, used': seq<Grant>)
    requires Holding(dev, iod, was, pool, used, e, i) && prpList == used[|used| - 1].ptr
    requires used <= grants && Unused(was, pool, grants)
    requires PAGE_SIZE * |e| + 1 < totalLen && |used| <= NvmePages(totalLen) <= iod.list.Length
    requires pool.SmallPool? ==> i < SMALL_WORDS
    modifies dev, iod`npages, iod.list
    ensures used' != [] && used' <= grants && prpList' == used'[|used'| - 1].ptr && used'[0] == used[0]
    ensures |used'| <= NvmePages(totalLen)
    ensures !ok ==>
      i == i' == WORDS && |e| >= WORDS && used == used' == grants && Holding(dev, iod, was, pool, used, e, i)
    ensures ok ==> Holding(dev, iod, was, pool, used', e + [dmaAddr], i')
    ensures ok ==> i' == (if i == WORDS then 2 else i + 1) && |used'| == |used| + (if i == WORDS then 1 else 0)
  {
    hide Laid, Recorded;
    LaidCount(dev.pages, used, PoolWords(pool), e, i);
    prpList', i', used' := prpList, i, used;
    if i == PAGE_SIZE / 8 {
      if |used| == |grants| {
        return false, prpList', i', used';
      }
      var h := grants[|used|];
      NextIsAvailable(dev, iod, was, pool, used, grants);
      RoomForPage(totalLen, 1, |e|, |used|);
      Chain(dev, iod, was, used, e, prpList, h);
      prpList' := h.ptr;
      used' := used + [h];
      i' := 1;
    }
    Append(dev, iod, was, pool, used', e, prpList', i', dmaAddr);
    i' := i' + 1;
    ok := true;
  }

  lemma {:induction false} WalkMakesUp(all: seq<Segment>, first: nat, len: int, sg: seq<Segment>, dmaAddr: nat,
                                       dmaLen: int, e: seq<nat>)
    requires Walk(all, first, len, sg, dmaAddr, dmaLen, e) && |e| >= 2
    ensures len < Total(all) && MakesUp(all, first, Total(all) - len, e)
  {
  }

  /** Lines 455 to 465: one page further. The segment ends on a page boundary, so the BUG_ON cannot fire. */
  method NextPosition(ghost all: seq<Segment>, ghost first: nat, len: int, sg: seq<Segment>, dmaAddr: nat, dmaLen: int,
                      ghost e: seq<nat>)
    returns (len': int, sg': seq<Segment>, dmaAddr': nat, dmaLen': int)
    requires Walk(all, first, len, sg, dmaAddr, dmaLen, e)
    ensures len' == len - PAGE_SIZE
    ensures len' <= 0 && (e == [] ==> PAGE_SIZE < len) ==> MakesUp(all, first, Total(all), e + [dmaAddr])
    ensures len' > 0 ==> Walk(all, first, len', sg', dmaAddr', dmaLen', e + [dmaAddr])
  {
    WalkStep(all, first, len, sg, dmaAddr, dmaLen, e);
    sg' := sg;
    dmaLen' := dmaLen - PAGE_SIZE;
    dmaAddr' := dmaAddr + PAGE_SIZE;
    len' := len - PAGE_SIZE;
    if len' <= 0 || dmaLen' > 0 {
      return;
    }
    assert dmaLen' == 0;
    sg' := sg[1..];
    dmaAddr' := sg'[0].addr;
    dmaLen' := sg'[0].len;
  }

  /** The loop of nvme_setup_prps: writes one entry per page of data, chaining list pages as they fill up. The
      ghost results are the entries written and the words used in the last page. */
  method FillList(dev: Dev, iod: Iod, ghost was: Before, ghost all: seq<Segment>, ghost first: nat, totalLen: nat,
                  len0: nat, sg0: seq<Segment>, dmaAddr0: nat, dmaLen0: int, pool: Pool, grants: seq<Grant>)
    returns (length: nat, used: seq<Grant>, ghost e: seq<nat>, ghost words: nat)
    requires Total(all) == totalLen
    requires Walk(all, first, len0, sg0, dmaAddr0, dmaLen0, []) && PAGE_SIZE < len0
    requires grants != [] && Unused(was, pool, grants)
    requires Holding(dev, iod, was, pool, [grants[0]], [], 0)
    requires 1 <= NvmePages(totalLen) <= iod.list.Length
    requires pool.SmallPool? ==> len0 <= PAGE_SIZE * SMALL_WORDS
    modifies dev, iod, iod.list
    ensures used != [] && used <= grants && (length < totalLen ==> used == grants)
    ensures |used| <= NvmePages(totalLen)
    ensures Holding(dev, iod, was, pool, used, e, words) && (|used| > 1 ==> words >= 2)
    ensures MakesUp(all, first, length, e) && length <= totalLen
    ensures length < totalLen ==> pool.PagePool? && words == WORDS && length == first + PAGE_SIZE * |e|
  {
    hide Laid, Recorded, Maps, Rest, NoHoles;
    var len: int, sg, dmaAddr: nat, dmaLen := len0, sg0, dmaAddr0, dmaLen0;
    used := [grants[0]];
    var prpList: nat, i: nat := grants[0].ptr, 0;
    e := [];
    while true
      invariant used != [] && used <= grants && prpList == used[|used| - 1].ptr
      invariant |used| <= NvmePages(totalLen)
      invariant Walk(all, first, len, sg, dmaAddr, dmaLen, e) && (e == [] ==> PAGE_SIZE < len)
      invariant Holding(dev, iod, was, pool, used, e, i) && (|used| > 1 ==> i >= 2)
      invariant pool.SmallPool? ==> len <= PAGE_SIZE * (SMALL_WORDS - i)
      decreases len
    {
      ghost var entry := dmaAddr;
      var ok;
      ok, prpList, i, used := AddEntry(dev, iod, was, totalLen, pool, grants, used, e, prpList, i, dmaAddr);
      if !ok {
        WalkMakesUp(all, first, len, sg, dmaAddr, dmaLen, e);
        return totalLen - len, used, e, i;
      }
      len, sg, dmaAddr, dmaLen := NextPosition(all, first, len, sg, dmaAddr, dmaLen, e);
      e := e + [entry];
      if len <= 0 {
        break;
      }
    }
    length, words := totalLen, i;
  }

  /** Lines 433 to 468, when the pool grants something. */
  method UseList(dev: Dev, iod: Iod, ghost all: seq<Segment>, ghost first: nat, totalLen: nat, len: nat,
                 sg: seq<Segment>, dmaAddr: nat, dmaLen: int, pool: Pool, grants: seq<Grant>)
    returns (prp2: nat, length: nat, used: seq<Grant>)
    requires NoHoles(all) && all[0].addr % PAGE_SIZE + first == PAGE_SIZE && Total(all) == totalLen
    requires Walk(all, first, len, sg, dmaAddr, dmaLen, []) && PAGE_SIZE < len
    requires pool.SmallPool? ==> len <= PAGE_SIZE * SMALL_WORDS
    requires iod.npages == (if pool.SmallPool? then 0 else 1) && NvmePages(totalLen) <= iod.list.Length
    requires grants != [] && dev.Available(pool, grants)
    modifies dev, iod, iod.list
    ensures 0 < length <= totalLen
    ensures forall k :: 0 <= k < length ==>
      Decode(all[0].addr, prp2, dev.pages, dev.bus, length, k) == Some(ByteAt(all, k))
    ensures used != [] && used <= grants && |used| <= NvmePages(totalLen) && (length < totalLen ==> used == grants)
    ensures pool.SmallPool? ==> length == totalLen
    ensures pool.PagePool? ==>
      && length == Min(totalLen, first + PAGE_SIZE * Capacity(|grants|))
      && PAGE_SIZE * Capacity(|used| - 1) < length - first <= PAGE_SIZE * Capacity(|used|)
    ensures Records(iod, dev, pool, used)
    ensures dev.live == old(dev.live) + Pairs(pool, used) && old(dev.live) !! Pairs(pool, used)
    ensures dev.pages - Ptrs(used) == old(dev.pages) && dev.bus - Dmas(used) == old(dev.bus)
  {
    ghost var was := Before(dev.pages, dev.bus, dev.live);
    FirstPage(dev, iod, was, pool, grants);
    prp2 := grants[0].dma;
    ghost var e: seq<nat>, words: nat;
    length, used, e, words := FillList(dev, iod, was, all, first, totalLen, len, sg, dmaAddr, dmaLen, pool, grants);
    ListDone(dev, iod, was, all, first, length, pool, used, e, words);
    ListOutcome(all, first, totalLen, length, dev.pages, grants, used, PoolWords(pool), e, words);
  }

  lemma {:induction false} SmallEnough(len: nat)
    ensures DivRoundUp(len, PAGE_SIZE) <= 32 <==> len <= 32 * PAGE_SIZE
  {
  }

  /** When the pool refuses the first page, prp2 points to the second page of the transfer. */
  lemma {:induction false} RefusedDecodes(all: seq<Segment>, first: nat, len: nat, sg: seq<Segment>, dmaAddr: nat,
                                          dmaLen: int)
    requires NoHoles(all) && all[0].addr % PAGE_SIZE + first == PAGE_SIZE
    requires Walk(all, first, len, sg, dmaAddr, dmaLen, []) && PAGE_SIZE < len
    ensures var length := Total(all) - len + PAGE_SIZE;
      && 0 < length <= Total(all)
      && forall pages, bus, k :: 0 <= k < length ==>
           Decode(all[0].addr, dmaAddr, pages, bus, length, k) == Some(ByteAt(all, k))
  {
    EntryMaps(all, first, [], [Segment(dmaAddr, dmaLen)] + sg[1..]);
    hide Walk, Decode, NoHoles;
    TwoPagesDecode(all, first, dmaAddr, Total(all) - len + PAGE_SIZE);
  }

  /** The part of nvme_setup_prps that needs a list (from line 424 on): len bytes are left at dmaAddr. */
  method BuildList(dev: Dev, iod: Iod, ghost all: seq<Segment>, ghost first: nat, totalLen: nat, len: nat,
                   sg: seq<Segment>, dmaAddr: nat, dmaLen: int, small: seq<Grant>, large: seq<Grant>)
    returns (prp2: nat, length: nat, pool: Pool, used: seq<Grant>)
    requires NoHoles(all) && all[0].addr % PAGE_SIZE + first == PAGE_SIZE && Total(all) == totalLen
    requires Walk(all, first, len, sg, dmaAddr, dmaLen, []) && PAGE_SIZE < len
    requires iod.npages == -1 && NvmePages(totalLen) <= iod.list.Length
    requires dev.Available(SmallPool, small) && dev.Available(PagePool, large)
    modifies dev, iod, iod.list
    ensures 0 < length <= totalLen
    ensures forall k :: 0 <= k < length ==>
      Decode(all[0].addr, prp2, dev.pages, dev.bus, length, k) == Some(ByteAt(all, k))
    ensures used <= (if pool.SmallPool? then small else large) && |used| <= NvmePages(totalLen)
    ensures length < totalLen ==> used == if pool.SmallPool? then small else large
    ensures Outcome(all, totalLen, small, large, pool, used, length)
    ensures Records(iod, dev, pool, used)
    ensures dev.live == old(dev.live) + Pairs(pool, used) && old(dev.live) !! Pairs(pool, used)
    ensures dev.pages - Ptrs(used) == old(dev.pages) && dev.bus - Dmas(used) == old(dev.bus)
  {
    SmallEnough(len);
    hide DivRoundUp, NvmePages;
    var nprps := DivRoundUp(len, PAGE_SIZE);
    if nprps <= 256 / 8 {
      pool := SmallPool;
      iod.npages := 0;
    } else {
      pool := PagePool;
      iod.npages := 1;
    }
    var grants := if pool.SmallPool? then small else large;
    if grants == [] {
      prp2 := dmaAddr;
      iod.npages := -1;
      length := totalLen - len + PAGE_SIZE;
      RefusedDecodes(all, first, len, sg, dmaAddr, dmaLen);
      used := [];
      hide Walk, Decode, NoHoles;
      return;
    }
    hide Decode, Records, Walk, Pairs, Ptrs, Dmas, Dev.Available;
    prp2, length, used := UseList(dev, iod, all, first, totalLen, len, sg, dmaAddr, dmaLen, pool, grants);
  }

  /** nvme_setup_prps. small and large are what the two pools will still give; an allocation beyond them
      fails. pool and used report the list pages in use at the end. */
  method SetupPrps(dev: Dev, iod: Iod, totalLen: nat, small: seq<Grant>, large: seq<Grant>)
    returns (prp1: nat, prp2: nat, length: nat, pool: Pool, used: seq<Grant>)
    requires NoHoles(iod.sg) && Total(iod.sg) == totalLen
    requires iod.npages == -1 && NvmePages(totalLen) <= iod.list.Length
    requires dev.Available(SmallPool, small) && dev.Available(PagePool, large)
    modifies dev, iod, iod.list
    ensures 0 < length <= totalLen
    ensures forall k :: 0 <= k < length ==>
      Decode(prp1, prp2, dev.pages, dev.bus, length, k) == Some(ByteAt(iod.sg, k))
    ensures used <= (if pool.SmallPool? then small else large) && |used| <= NvmePages(totalLen)
    ensures length < totalLen ==> used == if pool.SmallPool? then small else large
    ensures Outcome(iod.sg, totalLen, small, large, pool, used, length)
    ensures Records(iod, dev, pool, used)
    ensures dev.live == old(dev.live) + Pairs(pool, used) && old(dev.live) !! Pairs(pool, used)
    ensures dev.pages - Ptrs(used) == old(dev.pages) && dev.bus - Dmas(used) == old(dev.bus)
  {
    hide Maps, ListEntry;
    ghost var all := iod.sg;
    used, pool, prp2 := [], SmallPool, 0;
    var sg := iod.sg;
    var len: int := totalLen;
    var dmaLen: int := sg[0].len;
    var dmaAddr := sg[0].addr;
    var offset := dmaAddr % PAGE_SIZE;
    ghost var first: nat := PAGE_SIZE - offset;
    NextChunk(all);
    FirstLenWithinTotal(all);
    prp1 := dmaAddr;
    len := len - (PAGE_SIZE - offset);
    if len <= 0 {
      length := totalLen;
      return;
    }
    assert Rest(all, 0, all);
    RestDrop(all, 0, all, first);
    ghost var rest := Drop(all, first);
    dmaLen := dmaLen - (PAGE_SIZE - offset);
    if dmaLen != 0 {
      dmaAddr := dmaAddr + (PAGE_SIZE - offset);
    } else {
      sg := sg[1..];
      dmaAddr := sg[0].addr;
      dmaLen := sg[0].len;
    }
    assert rest == [Segment(dmaAddr, dmaLen)] + sg[1..];
    if len <= PAGE_SIZE {
      prp2 := dmaAddr;
      length := totalLen;
      EntryMaps(all, first, [], rest);
      TwoPagesDecode(all, first, prp2, length);
      return;
    }
    NothingMapped(all, first);
    prp2, length, pool, used := BuildList(dev, iod, all, first, totalLen, len, sg, dmaAddr, dmaLen, small, large);
  }

  // ---------------------------------------------------------------- releasing the list

  /** The next page to free is none of those freed already. */
  lemma {:induction false} NextToFree(pool: Pool, used: seq<Grant>, i: nat)
    requires Distinct(used) && i < |used|
    ensures used[i].ptr !in Ptrs(used[..i])
    ensures (pool, used[i].ptr, used[i].dma) !in Pairs(pool, used[..i])
  {
  }

  /** Compared with before, exactly the pages g have been released to the pool. */
  ghost predicate Freed(dev: Dev, was: Before, pool: Pool, g: seq<Grant>)
    reads dev
  {
    dev.live == was.live - Pairs(pool, g) && dev.pages == was.pages - Ptrs(g) && dev.bus == was.bus - Dmas(g)
  }

  method FreePage(dev: Dev, pool: Pool, ghost was: Before, ghost freed: seq<Grant>, ptr: nat, dma: nat)
    requires Freed(dev, was, pool, freed) && (pool, ptr, dma) in was.live - Pairs(pool, freed)
    modifies dev
    ensures Freed(dev, was, pool, freed + [Grant(ptr, dma)])
  {
    PairsAppend(pool, freed, Grant(ptr, dma));
    hide Pairs, Ptrs, Dmas;
    dev.PoolFree(pool, ptr, dma);
  }

  /** nvme_free_iod, up to the final kfree: releases exactly the list pages on record, each once, from its own
      pool and with its own bus address, found by following the last word of each page. */
  method FreeIod(dev: Dev, iod: Iod, ghost pool: Pool, ghost used: seq<Grant>)
    requires Records(iod, dev, pool, used)
    modifies dev
    ensures dev.live == old(dev.live) - Pairs(pool, used)
    ensures dev.pages == old(dev.pages) - Ptrs(used) && dev.bus == old(dev.bus) - Dmas(used)
  {
    ghost var was := Before(dev.pages, dev.bus, dev.live);
    var lastPrp := PAGE_SIZE / 8 - 1;
    var prpDma := iod.firstDma;
    if iod.npages == 0 {
      FreePage(dev, SmallPool, was, [], iod.list[0], prpDma);
      assert [] + [Grant(iod.list[0], prpDma)] == used;
    }
    var i := 0;
    while i < iod.npages
      invariant 0 <= i <= |used| && (iod.npages > 0 ==> iod.npages == |used|)
      invariant i < iod.npages ==> prpDma == used[i].dma
      invariant Freed(dev, was, pool, if iod.npages == 0 then used else used[..i])
    {
      NextToFree(pool, used, i);
      var prpList := iod.list[i];
      var nextPrpDma := dev.pages[prpList][lastPrp];
      hide Freed, Pairs, Ptrs, Dmas;
      FreePage(dev, PagePool, was, used[..i], prpList, prpDma);
      assert used[..i + 1] == used[..i] + [Grant(prpList, prpDma)];
      prpDma := nextPrpDma;
      i := i + 1;
    }
    assert iod.npages != 0 ==> used[..i] == used;
  }

  /** The life of a transfer's list, from submission to completion: nothing leaks and nothing else is freed, so the
      allocator may hand out the same memory again. The iod may have been allocated for more bytes than sg. */
  method SetupThenFree(dev: Dev, sg: seq<Segment>, nbytes: nat, small: seq<Grant>, large: seq<Grant>)
    returns (length: nat)
    requires NoHoles(sg) && Total(sg) <= nbytes
    requires dev.Available(SmallPool, small) && dev.Available(PagePool, large)
    modifies dev
    ensures 0 < length <= Total(sg)
    ensures dev.live == old(dev.live) && dev.pages == old(dev.pages) && dev.bus == old(dev.bus)
    ensures dev.Available(SmallPool, small) && dev.Available(PagePool, large)
  {
    MoreBytesMorePages(Total(sg), nbytes);
    hide NvmePages, Records, Decode, Pairs, Ptrs, Dmas;
    var iod := new Iod(sg, nbytes);
    var prp1, prp2, pool, used;
    prp1, prp2, length, pool, used := SetupPrps(dev, iod, Total(sg), small, large);
    FreeIod(dev, iod, pool, used);
  }

  // ---------------------------------------------------------------- from a bio to a scatter list

  /** A bio_vec, with its page given by number. */
  datatype BioVec = BioVec(page: nat, offset: nat, len: nat)

  function Phys(v: BioVec): nat { PAGE_SIZE * v.page + v.offset }

  predicate PhysMergeable(v: BioVec, w: BioVec) { Phys(v) + v.len == Phys(w) }

  predicate NotVirtMergeable(v: BioVec, w: BioVec) {
    w.offset != 0 || (v.offset + v.len) % PAGE_SIZE != 0
  }

  /** Between v and w there is a hole that a scatter list may not have: they do not touch, and one of them has its
      end there off a page boundary. */
  predicate Apart(v: BioVec, w: BioVec) {
    && Phys(v) + v.len != Phys(w)
    && (Phys(w) % PAGE_SIZE != 0 || (Phys(v) + v.len) % PAGE_SIZE != 0)
  }

  /** The driver's two tests see exactly these holes. */
  lemma {:induction false} ApartIff(v: BioVec, w: BioVec)
    ensures !PhysMergeable(v, w) && NotVirtMergeable(v, w) <== Apart(v, w)
    ensures w.offset < PAGE_SIZE ==> (!PhysMergeable(v, w) && NotVirtMergeable(v, w) <==> Apart(v, w))
  {
  }

  lemma {:induction false} StopsAtHole(bvecs: seq<BioVec>, idx: nat, next: nat)
    requires idx < next <= |bvecs|
    requires forall i :: idx < i < next ==>
      PhysMergeable(bvecs[i - 1], bvecs[i]) || !NotVirtMergeable(bvecs[i - 1], bvecs[i])
    requires next < |bvecs| ==>
      !PhysMergeable(bvecs[next - 1], bvecs[next]) && NotVirtMergeable(bvecs[next - 1], bvecs[next])
    ensures forall i :: idx < i < next ==> !Apart(bvecs[i - 1], bvecs[i])
    ensures next < |bvecs| && bvecs[next].offset < PAGE_SIZE ==> Apart(bvecs[next - 1], bvecs[next])
  {
    forall i | idx < i <= next && i < |bvecs|
      ensures Apart(bvecs[i - 1], bvecs[i]) ==>
        !PhysMergeable(bvecs[i - 1], bvecs[i]) && NotVirtMergeable(bvecs[i - 1], bvecs[i])
    {
      ApartIff(bvecs[i - 1], bvecs[i]);
    }
    if next < |bvecs| {
      ApartIff(bvecs[next - 1], bvecs[next]);
    }
    hide Apart, PhysMergeable, NotVirtMergeable;
  }

  /** How many stretches of touching vectors there are. */
  function Stretches(vs: seq<BioVec>): nat
    decreases |vs|
  {
    if |vs| <= 1 then |vs|
    else
      Stretches(vs[..|vs| - 1])
      + if Phys(vs[|vs| - 2]) + vs[|vs| - 2].len == Phys(vs[|vs| - 1]) then 0 else 1
  }

  /** One segment for each stretch. */
  ghost predicate OneEach(sg: seq<Segment>, vs: seq<BioVec>) {
    |sg| == Stretches(vs)
  }

  lemma {:induction false} OneMoreVector(vs: seq<BioVec>, v: BioVec)
    ensures Stretches(vs + [v]) == Stretches(vs) + if vs != [] && PhysMergeable(vs[|vs| - 1], v) then 0 else 1
  {
    assert (vs + [v])[..|vs|] == vs;
  }

  /** The memory a bio names, piece by piece. */
  function Raw(vs: seq<BioVec>): (r: seq<Segment>)
    ensures |r| == |vs|
  {
    if vs == [] then [] else Raw(vs[..|vs| - 1]) + [Segment(Phys(vs[|vs| - 1]), vs[|vs| - 1].len)]
  }

  ghost predicate SameBytes(a: seq<Segment>, b: seq<Segment>) {
    Total(a) == Total(b) && forall k :: 0 <= k < Total(a) ==> ByteAt(a, k) == ByteAt(b, k)
  }

  lemma {:induction false} AppendBytes(a: seq<Segment>, s: Segment)
    ensures Total(a + [s]) == Total(a) + s.len
    ensures forall k :: 0 <= k < Total(a) + s.len ==>
      ByteAt(a + [s], k) == if k < Total(a) then ByteAt(a, k) else s.addr + (k - Total(a))
  {
    if a == [] {
      assert Total([s][1..]) == 0;
    } else {
      assert (a + [s])[1..] == a[1..] + [s];
      AppendBytes(a[1..], s);
    }
  }

  /** Lengthening the last segment is the same as appending an adjacent one. */
  lemma {:induction false} GrowLast(a: seq<Segment>, s: Segment, extra: nat)
    ensures SameBytes(a + [s] + [Segment(s.addr + s.len, extra)], a + [Segment(s.addr, s.len + extra)])
  {
    AppendBytes(a, s);
    AppendBytes(a + [s], Segment(s.addr + s.len, extra));
    AppendBytes(a, Segment(s.addr, s.len + extra));
  }

  lemma {:induction false} AppendSame(a: seq<Segment>, b: seq<Segment>, s: Segment)
    requires SameBytes(a, b)
    ensures SameBytes(a + [s], b + [s])
  {
    AppendBytes(a, s);
    AppendBytes(b, s);
  }

  /** sg covers exactly the vectors vs, and ends where the last of them ends. */
  ghost predicate Gathered(sg: seq<Segment>, vs: seq<BioVec>) {
    && SameBytes(sg, Raw(vs))
    && (sg == [] <==> vs == [])
    && (sg != [] ==>
          && NoHoles(sg)
          && sg[|sg| - 1].addr + sg[|sg| - 1].len == Phys(vs[|vs| - 1]) + vs[|vs| - 1].len)
  }

  lemma {:induction false} RawEmpty()
    ensures Raw([]) == []
  {
  }

  lemma {:induction false} RawAppend(vs: seq<BioVec>, v: BioVec)
    ensures Raw(vs + [v]) == Raw(vs) + [Segment(Phys(v), v.len)]
  {
    assert (vs + [v])[..|vs|] == vs;
  }

  lemma {:induction false} GatherMerge(sg: seq<Segment>, vs: seq<BioVec>, v: BioVec)
    requires Gathered(sg, vs) && vs != [] && v.len > 0 && PhysMergeable(vs[|vs| - 1], v)
    ensures var last := sg[|sg| - 1];
      Gathered(sg[..|sg| - 1] + [Segment(last.addr, last.len + v.len)], vs + [v])
  {
    var init, last := sg[..|sg| - 1], sg[|sg| - 1];
    var piece := Segment(Phys(v), v.len);
    assert sg == init + [last];
    RawAppend(vs, v);
    AppendSame(sg, Raw(vs), piece);
    GrowLast(init, last, v.len);
    var sg' := init + [Segment(last.addr, last.len + v.len)];
    assert SameBytes(sg', Raw(vs + [v]));
    assert (last.addr + (last.len + v.len)) == Phys(v) + v.len;
  }

  lemma {:induction false} GatherNew(sg: seq<Segment>, vs: seq<BioVec>, v: BioVec)
    requires Gathered(sg, vs) && v.len > 0 && (vs != [] ==> !NotVirtMergeable(vs[|vs| - 1], v))
    ensures Gathered(sg + [Segment(Phys(v), v.len)], vs + [v])
  {
    RawAppend(vs, v);
    AppendSame(sg, Raw(vs), Segment(Phys(v), v.len));
    if vs != [] {
      var u := vs[|vs| - 1];
      assert (PAGE_SIZE * u.page + u.offset + u.len) % PAGE_SIZE == (u.offset + u.len) % PAGE_SIZE;
    }
  }

  /** One turn of the loop: the vector joins the last segment, starts a new one, or ends the loop. */
  method AddVector(ghost vs: seq<BioVec>, sg: seq<Segment>, bvprv: Option<BioVec>, bvec: BioVec)
    returns (sg': seq<Segment>, more: bool)
    requires Gathered(sg, vs) && |sg| == Stretches(vs) && bvec.len > 0
    requires bvprv == if vs == [] then None else Some(vs[|vs| - 1])
    ensures more <==> vs == [] || PhysMergeable(vs[|vs| - 1], bvec) || !NotVirtMergeable(vs[|vs| - 1], bvec)
    ensures !more ==> sg' == sg
    ensures more ==> Gathered(sg', vs + [bvec]) && |sg'| == Stretches(vs + [bvec]) && Total(sg') == Total(sg) + bvec.len
  {
    OneMoreVector(vs, bvec);
    RawAppend(vs, bvec);
    AppendBytes(Raw(vs), Segment(Phys(bvec), bvec.len));
    hide Raw, NoHoles, PhysMergeable, NotVirtMergeable, Stretches;
    if bvprv.Some? && PhysMergeable(bvprv.value, bvec) {
      GatherMerge(sg, vs, bvec);
      var last := sg[|sg| - 1];
      return sg[..|sg| - 1] + [Segment(last.addr, last.len + bvec.len)], true;
    }
    if bvprv.Some? && NotVirtMergeable(bvprv.value, bvec) {
      return sg, false;
    }
    GatherNew(sg, vs, bvec);
    return sg + [Segment(Phys(bvec), bvec.len)], true;
  }

  lemma {:induction false} NothingGathered()
    ensures Gathered([], []) && Stretches([]) == 0 && Total([]) == 0
  {
    RawEmpty();
  }

  lemma {:induction false} GatheredMeans(sg: seq<Segment>, vs: seq<BioVec>)
    requires Gathered(sg, vs) && vs != []
    ensures NoHoles(sg) && SameBytes(sg, Raw(vs))
  {
  }

  /** nvme_map_bio without the DMA mapping: gathers vectors from idx on, merging those that touch, until the
      first hole. What it gathers is a scatter list nvme_setup_prps can use, with the bytes of the bio in order, one
      segment for each stretch of touching vectors. Offsets are within their pages. */
  method MapBio(bvecs: seq<BioVec>, idx: nat) returns (sg: seq<Segment>, length: nat, next: nat)
    requires idx < |bvecs| && forall i :: 0 <= i < |bvecs| ==> bvecs[i].len > 0
    ensures idx < next <= |bvecs|
    ensures NoHoles(sg) && Total(sg) == length
    ensures SameBytes(sg, Raw(bvecs[idx..next]))
    ensures OneEach(sg, bvecs[idx..next])
    ensures forall i :: idx < i < next ==> !Apart(bvecs[i - 1], bvecs[i])
    ensures next < |bvecs| && bvecs[next].offset < PAGE_SIZE ==> Apart(bvecs[next - 1], bvecs[next])
    ensures forall i :: idx < i < next ==>
      PhysMergeable(bvecs[i - 1], bvecs[i]) || !NotVirtMergeable(bvecs[i - 1], bvecs[i])
    ensures next < |bvecs| ==>
      !PhysMergeable(bvecs[next - 1], bvecs[next]) && NotVirtMergeable(bvecs[next - 1], bvecs[next])
  {
    hide Apart, Stretches, PhysMergeable, NotVirtMergeable, Gathered;
    NothingGathered();
    sg, length, next := [], 0, idx;
    assert bvecs[idx..idx] == [];
    var bvprv := None;
    while next < |bvecs|
      invariant idx <= next <= |bvecs|
      invariant bvprv == if next == idx then None else Some(bvecs[next - 1])
      invariant Total(sg) == length && Gathered(sg, bvecs[idx..next]) && |sg| == Stretches(bvecs[idx..next])
      invariant forall i :: idx < i < next ==>
        PhysMergeable(bvecs[i - 1], bvecs[i]) || !NotVirtMergeable(bvecs[i - 1], bvecs[i])
    {
      var bvec, more := bvecs[next], false;
      assert bvecs[idx..next + 1] == bvecs[idx..next] + [bvec];
      sg, more := AddVector(bvecs[idx..next], sg, bvprv, bvec);
      if !more {
        break;
      }
      length := length + bvec.len;
      bvprv := Some(bvec);
      next := next + 1;
    }
    StopsAtHole(bvecs, idx, next);
    GatheredMeans(sg, bvecs[idx..next]);
  }

  /** A DMA mapping that keeps lengths and offsets in the page keeps the list usable. */
  lemma {:induction false} MappingKeepsNoHoles(sg: seq<Segment>, dma: seq<Segment>)
    requires NoHoles(sg) && |dma| == |sg|
    requires forall i :: 0 <= i < |sg| ==> dma[i].len == sg[i].len && dma[i].addr % PAGE_SIZE == sg[i].addr % PAGE_SIZE
    ensures NoHoles(dma) && Total(dma) == Total(sg)
    decreases |sg|
  {
    if |sg| == 1 {
      assert dma[1..] == [] && sg[1..] == [];
    } else {
      forall i | 0 <= i < |sg| - 1 ensures (dma[i].addr + dma[i].len) % PAGE_SIZE == 0 {
        assert (sg[i].addr + sg[i].len) % PAGE_SIZE == 0;
      }
      MappingKeepsNoHoles(sg[1..], dma[1..]);
    }
  }
}
