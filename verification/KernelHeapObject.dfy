/** The heap in raw memory: one array of 32-bit words stands for the 4 GiB of
    physical memory, and the link of a free block and the header of a live block
    are the same word of it. */
module HeapMemory {
  import opened Machine
  import opened FrameBits
  import Pmm = FrameSpec
  import opened HeapBlocks
  import opened HeapSpec
  import opened HeapRuns

  /** sizeof(CacheInfo) */
  const CACHE_INFO: nat := 16

  /** An address that leaves room for the eight caches. */
  type CachesAt = a: nat | a + 16 * NUM_CACHES <= TWO32

  /** Following the link words from head visits exactly the blocks of chain and
      then reaches null. */
  ghost predicate ChainAt(m: seq<Word>, head: Word, chain: seq<Block>)
    requires |m| == MEMORY_WORDS
    decreases |chain|
  {
    if chain == [] then head == 0
    else
      && chain[0].Ok()
      && chain[0].Index() < MEMORY_WORDS
      && head == chain[0].Addr()
      && ChainAt(m, m[chain[0].Index()], chain[1..])
  }

  /** The header of a live block: null for a directly allocated page, otherwise the
      address of its cache. */
  function Tag(cachesAt: CachesAt, cls: nat): Word
    requires cls <= LARGE
  {
    if cls == LARGE then 0 else cachesAt + CACHE_INFO * cls
  }

  ghost predicate HeapAt(m: seq<Word>, heads: seq<Word>, cachesAt: CachesAt, h: Heap)
    requires |m| == MEMORY_WORDS && Inv(h)
  {
    && |heads| == NUM_CACHES
    && (forall c :: 0 <= c < NUM_CACHES ==> ChainAt(m, heads[c], h.chains[c]))
    && (forall b :: b in h.live ==> b.Index() < MEMORY_WORDS && m[b.Index()] == Tag(cachesAt, b.cls))
  }

  ghost predicate HeaderWord(h: Heap, w: nat) {
    exists b :: InHeap(h, b) && b.Index() == w
  }

  lemma {:induction false} ChainUnaffected(m: seq<Word>, m': seq<Word>, head: Word, chain: seq<Block>)
    requires |m| == |m'| == MEMORY_WORDS
    requires ChainAt(m, head, chain)
    requires forall b :: b in chain && b.cls <= LARGE && b.Index() < MEMORY_WORDS ==> m[b.Index()] == m'[b.Index()]
    ensures ChainAt(m', head, chain)
    decreases |chain|
  {
    hide Block.Index, Block.Addr, RealSize, PerPage;
    if chain != [] {
      assert chain[0] in chain;
      assert chain[0].cls <= LARGE && chain[0].Index() < MEMORY_WORDS;
      ChainUnaffected(m, m', m[chain[0].Index()], chain[1..]);
    }
  }

  /** Two heap blocks have different header words. */
  lemma HeadersDistinct(h: Heap, a: Block, b: Block)
    requires InHeap(h, a) && InHeap(h, b) && a != b
    ensures a.Index() != b.Index()
  {
    BlocksDisjoint(a, b);
  }

  /** A store to any word that is no header leaves every chain and header as it is. */
  lemma StoreElsewhere(m: seq<Word>, heads: seq<Word>, cachesAt: CachesAt, h: Heap, w: nat, v: Word)
    requires |m| == MEMORY_WORDS && Inv(h) && w < MEMORY_WORDS
    requires HeapAt(m, heads, cachesAt, h) && !HeaderWord(h, w)
    ensures HeapAt(m[w := v], heads, cachesAt, h)
  {
    hide Block.Index, Block.Addr, Block.Ok, RealSize, PerPage, ChainAt;
    forall c | 0 <= c < NUM_CACHES
      ensures ChainAt(m[w := v], heads[c], h.chains[c])
    {
      assert forall b :: b in h.chains[c] ==> InHeap(h, b) && b.Index() != w;
      ChainUnaffected(m, m[w := v], heads[c], h.chains[c]);
    }
  }

  /** The words behind the header of a block, live or free, are no headers: client
      stores to them satisfy StoreElsewhere. */
  lemma PayloadIsNoHeader(h: Heap, b: Block, w: nat)
    requires InHeap(h, b) && b.Payload() <= 4 * w < b.End()
    ensures !HeaderWord(h, w)
  {
    hide RealSize, PerPage;
    BlockInFrame(b);
    forall x | InHeap(h, x)
      ensures x.Index() != w
    {
      BlockInFrame(x);
      if x != b {
        BlocksDisjoint(x, b);
      }
    }
  }

  /** Storing the old head into the word of a block that is not in the chain puts
      that block in front. */
  lemma PushLink(m: seq<Word>, head: Word, chain: seq<Block>, b: Block)
    requires |m| == MEMORY_WORDS && ChainAt(m, head, chain) && b.Ok()
    requires forall x :: x in chain ==> x.Ok() && x.Index() != b.Index()
    ensures b.Index() < MEMORY_WORDS
    ensures ChainAt(m[b.Index() := head], b.Addr(), [b] + chain)
  {
    BlockInFrame(b);
    hide Block.Index, Block.Addr, RealSize, PerPage;
    var m' := m[b.Index() := head];
    ChainUnaffected(m, m', head, chain);
    assert ([b] + chain)[1..] == chain;
  }

  /** cache_grow has threaded the first i slots of page f onto the chain of cache c,
      which starts at head, and has stored to no other word. */
  ghost predicate Threaded(m0: seq<Word>, m: seq<Word>, head: Word, h: Heap, c: nat, f: nat, i: nat)
    requires |h.chains| == NUM_CACHES && c < NUM_CACHES
  {
    && |m0| == |m| == MEMORY_WORDS
    && ChainAt(m, head, Slots(f, c, i) + h.chains[c])
    && (forall w :: 0 <= w < MEMORY_WORDS && w / 1024 != f ==> m[w] == m0[w])
    && (forall w :: 0 <= w < MEMORY_WORDS && !HeaderWord(AddPage(h, c, f), w) ==> m[w] == m0[w])
  }

  lemma ThreadedStart(m: seq<Word>, head: Word, h: Heap, c: nat, f: nat)
    requires |m| == MEMORY_WORDS && |h.chains| == NUM_CACHES && c < NUM_CACHES
    requires ChainAt(m, head, h.chains[c])
    ensures Threaded(m, m, head, h, c, f, 0)
  {
    assert Slots(f, c, 0) + h.chains[c] == h.chains[c];
  }

  lemma ThreadedStep(m0: seq<Word>, m: seq<Word>, head: Word, h: Heap, c: nat, f: nat, i: nat)
    requires Inv(h) && c < NUM_CACHES && 0 < f < FRAMES && f !in h.owner && i < PerPage(c)
    requires Threaded(m0, m, head, h, c, f, i)
    ensures var b := Block(f, c, i);
      b.Index() < MEMORY_WORDS && b.Index() * 4 == b.Addr() &&
      Threaded(m0, m[b.Index() := head], b.Addr(), h, c, f, i + 1)
  {
    hide RealSize, PerPage, ChainAt;
    var b := Block(f, c, i);
    var chain := Slots(f, c, i) + h.chains[c];
    BlockInFrame(b);
    forall x | x in chain
      ensures x.Ok() && x.Index() != b.Index()
    {
      BlocksDisjoint(x, b);
    }
    PushLink(m, head, chain, b);
    assert InHeap(AddPage(h, c, f), b);
    assert [b] + chain == Slots(f, c, i + 1) + h.chains[c];
  }

  /** When all slots of the new page are threaded, the memory holds the grown heap. */
  lemma ThreadedPage(m0: seq<Word>, m: seq<Word>, heads: seq<Word>, head: Word, cachesAt: CachesAt,
                     h: Heap, c: nat, f: nat)
    requires |m0| == MEMORY_WORDS && Inv(h) && c < NUM_CACHES && 0 < f < FRAMES && f !in h.owner
    requires HeapAt(m0, heads, cachesAt, h)
    requires Threaded(m0, m, head, h, c, f, PerPage(c))
    ensures Inv(AddPage(h, c, f))
    ensures HeapAt(m, heads[c := head], cachesAt, AddPage(h, c, f))
  {
    AddPageInv(h, c, f);
    hide RealSize, PerPage, ChainAt, Slots, Block.Index, Block.Addr;
    forall b | InHeap(h, b)
      ensures b.Index() < MEMORY_WORDS && m[b.Index()] == m0[b.Index()]
    {
      BlockInFrame(b);
    }
    forall d | 0 <= d < NUM_CACHES && d != c
      ensures ChainAt(m, heads[d], h.chains[d])
    {
      ChainUnaffected(m0, m, heads[d], h.chains[d]);
    }
  }

  datatype CacheInfo = CacheInfo(blockSize: nat, realBlockSize: nat, freeList: Word, totalPages: nat)

  /** The sizes of cache c are set. */
  predicate Sized(info: CacheInfo, c: nat)
    requires c < NUM_CACHES
  {
    info.blockSize == BLOCK_SIZES[c] && info.realBlockSize == RealSize(c)
  }

  function Heads(caches: seq<CacheInfo>): (heads: seq<Word>)
    ensures |heads| == |caches|
    ensures forall i :: 0 <= i < |caches| ==> heads[i] == caches[i].freeList
  {
    seq(|caches|, i requires 0 <= i < |caches| => caches[i].freeList)
  }

  /** Memory and caches hold the system: the chains and headers are in memory, and
      each cache counts its pages. */
  ghost predicate Holds(m: seq<Word>, caches: seq<CacheInfo>, cachesAt: CachesAt, s: System, reserved: set<nat>)
    requires |m| == MEMORY_WORDS
  {
    && Good(s, reserved)
    && |caches| == NUM_CACHES
    && HeapAt(m, Heads(caches), cachesAt, s.heap)
    && (forall c :: 0 <= c < NUM_CACHES ==> caches[c].totalPages == |PagesOf(s.heap, c)|)
  }

  /** The caches as cache_grow leaves them. */
  function Grown(caches: seq<CacheInfo>, c: nat, head: Word): seq<CacheInfo>
    requires c < |caches|
  {
    caches[c := caches[c].(totalPages := caches[c].totalPages + 1, freeList := head)]
  }

  lemma OwnedAfter(owner: map<nat, nat>, c: nat, f: nat, d: nat)
    requires f !in owner
    ensures OwnedBy(owner[f := c], d) == OwnedBy(owner, d) + if d == c then {f} else {}
  {
  }

  lemma PageCounts(h: Heap, c: nat, f: nat)
    requires |h.chains| == NUM_CACHES && c < NUM_CACHES && f !in h.owner
    ensures |PagesOf(AddPage(h, c, f), c)| == |PagesOf(h, c)| + 1
    ensures forall d: nat :: d != c ==> PagesOf(AddPage(h, c, f), d) == PagesOf(h, d)
  {
    assert AddPage(h, c, f).owner == h.owner[f := c];
    hide AddPage, OwnedBy;
    OwnedAfter(h.owner, c, f, c);
    assert f !in OwnedBy(h.owner, c) by { OwnedKeys(h.owner, c); }
    forall d: nat | d != c
      ensures PagesOf(AddPage(h, c, f), d) == PagesOf(h, d)
    {
      OwnedAfter(h.owner, c, f, d);
    }
  }

  lemma OwnedKeys(owner: map<nat, nat>, c: nat)
    ensures OwnedBy(owner, c) <= owner.Keys
  {
  }

  lemma GrowHolds(m0: seq<Word>, m: seq<Word>, caches: seq<CacheInfo>, head: Word, cachesAt: CachesAt,
                  s: System, c: nat, reserved: set<nat>)
    requires |m0| == MEMORY_WORDS && c < NUM_CACHES
    requires Holds(m0, caches, cachesAt, s, reserved)
    requires var addr := Pmm.Alloc(s.frames).1;
      addr != 0 && Threaded(m0, m, head, s.heap, c, addr / 4096, PerPage(c))
    ensures |m| == MEMORY_WORDS
    ensures Holds(m, Grown(caches, c, head), cachesAt, Grow(s, c), reserved)
    ensures forall w :: 0 <= w < |m| && !HeaderWord(Grow(s, c).heap, w) ==> m[w] == m0[w]
  {
    AllocatedFrame(s, reserved);
    GrowGood(s, c, reserved);
    hide Pmm.Alloc, HeapAt, PerPage, RealSize, Inv;
    var f := Pmm.Alloc(s.frames).1 / 4096;
    ThreadedPage(m0, m, Heads(caches), head, cachesAt, s.heap, c, f);
    PageCounts(s.heap, c, f);
    assert Heads(Grown(caches, c, head)) == Heads(caches)[c := head];
  }

  /** A store to the header word of block b disturbs no chain and no live header
      but those that contain b. */
  lemma StoreHeader(m: seq<Word>, heads: seq<Word>, cachesAt: CachesAt, h: Heap, b: Block, v: Word)
    requires |m| == MEMORY_WORDS && Inv(h) && HeapAt(m, heads, cachesAt, h) && InHeap(h, b)
    ensures b.Index() < MEMORY_WORDS && b.Index() * 4 == b.Addr()
    ensures forall c :: 0 <= c < NUM_CACHES && b !in h.chains[c] ==> ChainAt(m[b.Index() := v], heads[c], h.chains[c])
    ensures forall x :: x in h.live && x != b ==> m[b.Index() := v][x.Index()] == m[x.Index()]
  {
    BlockInFrame(b);
    hide RealSize, PerPage, Block.Index, Block.Addr, ChainAt;
    forall x | InHeap(h, x) && x != b
      ensures x.Index() != b.Index()
    {
      HeadersDistinct(h, x, b);
    }
    forall c | 0 <= c < NUM_CACHES && b !in h.chains[c]
      ensures ChainAt(m[b.Index() := v], heads[c], h.chains[c])
    {
      ChainUnaffected(m, m[b.Index() := v], heads[c], h.chains[c]);
    }
  }

  /** The head of a chain is a block of the heap, in memory at its address. */
  lemma HeadOfChain(m: seq<Word>, heads: seq<Word>, cachesAt: CachesAt, h: Heap, c: nat)
    requires |m| == MEMORY_WORDS && Inv(h) && HeapAt(m, heads, cachesAt, h) && c < NUM_CACHES && h.chains[c] != []
    ensures var b := h.chains[c][0];
      && InHeap(h, b) && b.cls == c && b.Index() < MEMORY_WORDS && heads[c] == b.Addr() && b.Index() * 4 == b.Addr()
      && ChainAt(m, m[b.Index()], h.chains[c][1..])
  {
    var b := h.chains[c][0];
    assert b in h.chains[c];
    BlockInFrame(b);
    hide RealSize, PerPage, Block.Addr, Block.Index;
  }

  lemma HeadApart(h: Heap, c: nat)
    requires Inv(h) && c < NUM_CACHES && h.chains[c] != []
    ensures |h.chains| == NUM_CACHES && h.chains[c][0] !in h.live
    ensures forall d :: 0 <= d < NUM_CACHES && d != c ==> h.chains[c][0] !in h.chains[d]
    ensures forall x :: x in h.chains[c][1..] ==> InHeap(h, x) && x != h.chains[c][0]
  {
    hide RealSize, PerPage, InHeap;
    var chain := h.chains[c];
    assert chain[0] in chain;
    forall x | x in chain[1..]
      ensures InHeap(h, x) && x != chain[0]
    {
      assert x in chain;
    }
  }

  lemma PopHeapAt(m: seq<Word>, heads: seq<Word>, cachesAt: CachesAt, h: Heap, c: nat, size: nat)
    requires |m| == MEMORY_WORDS && Inv(h) && HeapAt(m, heads, cachesAt, h)
    requires c < NUM_CACHES && h.chains[c] != [] && 0 < size <= BLOCK_SIZES[c]
    ensures var b := h.chains[c][0];
      && b.cls == c && b.Index() < MEMORY_WORDS && Inv(Pop(h, c, size))
      && HeapAt(m[b.Index() := Tag(cachesAt, c)], heads[c := m[b.Index()]], cachesAt, Pop(h, c, size))
  {
    var chain := h.chains[c];
    var b := chain[0];
    HeadOfChain(m, heads, cachesAt, h, c);
    PopInv(h, c, size);
    HeadApart(h, c);
    StoreHeader(m, heads, cachesAt, h, b, Tag(cachesAt, c));
    hide RealSize, PerPage, Block.Index, Block.Addr, ChainAt, Tag, Inv, InHeap;
    var m' := m[b.Index() := Tag(cachesAt, c)];
    assert ChainAt(m', m[b.Index()], chain[1..]) by {
      forall x | x in chain[1..]
        ensures x.Index() != b.Index()
      {
        HeadersDistinct(h, x, b);
      }
      ChainUnaffected(m, m', m[b.Index()], chain[1..]);
    }
  }

  /** Taking the head of a chain: its link word becomes the header of a live block. */
  lemma PopHolds(m: seq<Word>, caches: seq<CacheInfo>, cachesAt: CachesAt, s: System,
                 c: nat, size: nat, reserved: set<nat>)
    requires |m| == MEMORY_WORDS && Holds(m, caches, cachesAt, s, reserved)
    requires c < NUM_CACHES && s.heap.chains[c] != [] && 0 < size <= BLOCK_SIZES[c]
    ensures var b := s.heap.chains[c][0];
      && InHeap(s.heap, b) && InHeap(Pop(s.heap, c, size), b) && b.cls == c && b.Index() < MEMORY_WORDS
      && caches[c].freeList == b.Addr() && b.Index() * 4 == b.Addr()
      && Holds(m[b.Index() := Tag(cachesAt, c)], caches[c := caches[c].(freeList := m[b.Index()])],
               cachesAt, s.(heap := Pop(s.heap, c, size)), reserved)
  {
    var h := s.heap;
    HeadOfChain(m, Heads(caches), cachesAt, h, c);
    PopHeapAt(m, Heads(caches), cachesAt, h, c, size);
    hide RealSize, PerPage, Block.Index, Block.Addr, HeapAt, Inv, Tag;
    var b := h.chains[c][0];
    var caches' := caches[c := caches[c].(freeList := m[b.Index()])];
    assert Heads(caches') == Heads(caches)[c := m[b.Index()]];
    assert forall d: nat :: PagesOf(Pop(h, c, size), d) == PagesOf(h, d);
  }

  lemma LargeHeapAt(m: seq<Word>, heads: seq<Word>, cachesAt: CachesAt, h: Heap, f: nat, size: nat)
    requires |m| == MEMORY_WORDS && Inv(h) && HeapAt(m, heads, cachesAt, h)
    requires 0 < f < FRAMES && f !in h.owner && size > 2048
    ensures var h' := h.(live := h.live[Block(f, LARGE, 0) := size], owner := h.owner[f := LARGE]);
      && Inv(h') && HeapAt(m[f * 1024 := 0], heads, cachesAt, h') && HeaderWord(h', f * 1024)
  {
    var b := Block(f, LARGE, 0);
    var h' := h.(live := h.live[b := size], owner := h.owner[f := LARGE]);
    AddLargeInv(h, f, size);
    assert b.Ok();
    BlockInFrame(b);
    assert b.Index() == f * 1024;
    hide RealSize, PerPage, Block.Index, Block.Addr, ChainAt, Inv;
    assert InHeap(h', b);
    assert !HeaderWord(h, f * 1024) by {
      forall x | InHeap(h, x)
        ensures x.Index() != f * 1024
      {
        BlockInFrame(x);
      }
    }
    StoreElsewhere(m, heads, cachesAt, h, f * 1024, 0);
  }

  /** A directly allocated page becomes one live block with a null header. */
  lemma LargeHolds(m: seq<Word>, caches: seq<CacheInfo>, cachesAt: CachesAt, s: System, size: nat, reserved: set<nat>)
    requires |m| == MEMORY_WORDS && Holds(m, caches, cachesAt, s, reserved)
    requires size > 2048 && Pmm.Alloc(s.frames).1 != 0
    ensures var addr := Pmm.Alloc(s.frames).1;
      && addr % 4096 == 0 && addr / 4 < MEMORY_WORDS
      && Holds(m[addr / 4 := 0], caches, cachesAt, Malloc(s, size).0, reserved)
      && HeaderWord(Malloc(s, size).0.heap, addr / 4)
      && Malloc(s, size).1.block.Ok() && Malloc(s, size).1.block.Payload() == addr + 4
  {
    var (frames, addr) := Pmm.Alloc(s.frames);
    var f := addr / 4096;
    AllocatedFrame(s, reserved);
    MallocGood(s, size, reserved);
    hide Pmm.Alloc, Good, Inv, HeapAt, HeaderWord;
    LargeHeapAt(m, Heads(caches), cachesAt, s.heap, f, size);
    assert addr / 4 == f * 1024;
    assert Block(f, LARGE, 0).Ok() && Block(f, LARGE, 0).Payload() == addr + 4;
    hide Block.Ok, Block.Payload, RealSize, PerPage;
    OwnersAfter(s.heap.owner, f);
  }

  lemma OwnersAfter(owner: map<nat, nat>, f: nat)
    requires f !in owner
    ensures forall d: nat :: d != LARGE ==> OwnedBy(owner[f := LARGE], d) == OwnedBy(owner, d)
  {
  }

  lemma ReleaseHeapAt(m: seq<Word>, heads: seq<Word>, cachesAt: CachesAt, h: Heap, b: Block)
    requires |m| == MEMORY_WORDS && Inv(h) && HeapAt(m, heads, cachesAt, h) && b in h.live && b.cls < NUM_CACHES
    ensures b.Index() < MEMORY_WORDS && b.Index() * 4 == b.Addr() < TWO32
    ensures var h' := h.(live := h.live - {b}, chains := h.chains[b.cls := [b] + h.chains[b.cls]]);
      && Inv(h') && HeapAt(m[b.Index() := heads[b.cls]], heads[b.cls := b.Addr()], cachesAt, h')
  {
    ReleaseSmallInv(h, b);
    StoreHeader(m, heads, cachesAt, h, b, heads[b.cls]);
    hide RealSize, PerPage, Block.Index, Block.Addr, ChainAt, Tag;
    forall x | x in h.chains[b.cls]
      ensures x.Ok() && x.Index() != b.Index()
    {
      HeadersDistinct(h, x, b);
    }
    PushLink(m, heads[b.cls], h.chains[b.cls], b);
  }

  /** Freeing a small block puts it in front of the chain of its cache. */
  lemma ReleaseSmallHolds(m: seq<Word>, caches: seq<CacheInfo>, cachesAt: CachesAt, s: System,
                          b: Block, reserved: set<nat>)
    requires |m| == MEMORY_WORDS && Holds(m, caches, cachesAt, s, reserved)
    requires b in s.heap.live && b.cls < NUM_CACHES
    ensures b.Index() < MEMORY_WORDS && b.Index() * 4 == b.Addr() < TWO32 && InHeap(s.heap, b)
    ensures Holds(m[b.Index() := caches[b.cls].freeList], caches[b.cls := caches[b.cls].(freeList := b.Addr())],
                  cachesAt, Release(s, b), reserved)
  {
    var h := s.heap;
    assert InHeap(h, b);
    ReleaseHeapAt(m, Heads(caches), cachesAt, h, b);
    ReleaseGood(s, b, reserved);
    hide RealSize, PerPage, Block.Index, Block.Addr, HeapAt, Inv;
    var caches' := caches[b.cls := caches[b.cls].(freeList := b.Addr())];
    assert Heads(caches') == Heads(caches)[b.cls := b.Addr()];
    assert Release(s, b).heap.owner == h.owner;
  }

  /** Freeing a directly allocated page leaves memory alone. */
  lemma ReleaseLargeHolds(m: seq<Word>, caches: seq<CacheInfo>, cachesAt: CachesAt, s: System,
                          b: Block, reserved: set<nat>)
    requires |m| == MEMORY_WORDS && Holds(m, caches, cachesAt, s, reserved)
    requires b in s.heap.live && b.cls == LARGE
    ensures Holds(m, caches, cachesAt, Release(s, b), reserved)
  {
    var h, h' := s.heap, Release(s, b).heap;
    ReleaseGood(s, b, reserved);
    hide RealSize, PerPage, Block.Index, Block.Addr, ChainAt, Tag;
    assert b.frame in h.owner && h.owner[b.frame] == LARGE;
    assert forall d: nat :: d != LARGE ==> OwnedBy(h'.owner, d) == OwnedBy(h.owner, d);
  }

  lemma HeadTag(cachesAt: CachesAt, cls: nat)
    requires cachesAt > 0 && cls <= LARGE
    ensures Tag(cachesAt, cls) == 0 <==> cls == LARGE
    ensures cls < LARGE ==> (Tag(cachesAt, cls) - cachesAt) / CACHE_INFO == cls
  {
  }
}

/** The object of src/kernel/kmalloc.cpp. */
module KernelHeaps {
  import opened Machine
  import opened FrameBits
  import Pmm = FrameSpec
  import opened FrameAllocators
  import opened HeapBlocks
  import opened HeapSpec
  import opened HeapRuns
  import opened HeapMemory

  class KernelHeap {
    const pmm: FrameAllocator
    const mem: array<Word>
    /** The address of caches[0]. */
    const cachesAt: CachesAt
    var caches: seq<CacheInfo>
    ghost var heap: Heap
    ghost var reserved: set<nat>

    ghost function Abs(): System
      requires pmm.Valid()
      reads this, pmm, pmm.bitmap
    {
      System(heap, pmm.Abs())
    }

    /** All but the sizes of the caches, which kmalloc_init fills in one by one. */
    ghost predicate Linked()
      reads this, mem, pmm, pmm.bitmap
    {
      && pmm.Valid() && mem.Length == MEMORY_WORDS && cachesAt > 0
      && mem as object != pmm.bitmap as object
      && Holds(mem[..], caches, cachesAt, Abs(), reserved)
    }

    ghost predicate Valid()
      reads this, mem, pmm, pmm.bitmap
    {
      Linked() && forall c :: 0 <= c < NUM_CACHES ==> Sized(caches[c], c)
    }

    /** Only header words of heap blocks differ from the earlier memory m. */
    ghost predicate OnlyHeadersChanged(m: seq<Word>)
      reads this, mem
    {
      |m| == mem.Length && forall w :: 0 <= w < mem.Length && !HeaderWord(heap, w) ==> mem[w] == m[w]
    }

    constructor (pmm: FrameAllocator, memory: array<Word>, cachesAt: CachesAt)
      requires pmm.Valid() && 0 in pmm.Abs().used
      requires memory.Length == MEMORY_WORDS && cachesAt > 0
      requires memory as object != pmm.bitmap as object
      ensures Linked() && heap == NO_HEAP && reserved == pmm.Abs().used
      ensures this.pmm == pmm && mem == memory
    {
      this.pmm := pmm;
      mem := memory;
      this.cachesAt := cachesAt;
      caches := seq(NUM_CACHES, _ => CacheInfo(0, 0, 0, 0));
      heap := NO_HEAP;
      reserved := pmm.Abs().used;
      new;
      assert forall c :: 0 <= c < NUM_CACHES ==> PagesOf(heap, c) == {};
    }

    /** A client store to a payload word of any heap block, live or freed. */
    method ClientStore(ghost b: Block, w: nat, v: Word)
      requires Valid() && InHeap(heap, b) && b.Payload() <= 4 * w < b.End()
      modifies mem
      ensures Valid() && Abs() == old(Abs()) && caches == old(caches)
      ensures w < mem.Length && mem[..] == old(mem[..])[w := v]
    {
      hide Pmm.Limit, RealSize, PerPage;
      BlockInFrame(b);
      PayloadIsNoHeader(heap, b, w);
      StoreElsewhere(mem[..], Heads(caches), cachesAt, heap, w, v);
      mem[w] := v;
    }

    /** cache_grow */
    method CacheGrow(c: nat)
      requires Linked() && c < NUM_CACHES && |caches| == NUM_CACHES && Sized(caches[c], c)
      modifies this, mem, pmm, pmm.bitmap
      ensures Linked() && Abs() == Grow(old(Abs()), c) && reserved == old(reserved)
      ensures SizesKept(old(caches))
      ensures OnlyHeadersChanged(old(mem[..]))
    {
      hide Pmm.Alloc, RealSize, PerPage, Holds, Good, HeaderWord, AddPage, Frames;
      ghost var before := Abs();
      HoldsShape(mem[..], caches, cachesAt, before, reserved);
      AllocatedFrame(before, reserved);
      var page := pmm.AllocPage();
      if page != 0 {
        AdoptPage(c, page, before);
      }
    }

    /** cache_grow after its allocation, which took page from the state before. */
    method AdoptPage(c: nat, page: nat, ghost before: System)
      requires pmm.Valid() && mem.Length == MEMORY_WORDS && cachesAt > 0
      requires mem as object != pmm.bitmap as object
      requires Holds(mem[..], caches, cachesAt, before, reserved) && before.heap == heap
      requires page != 0 && Pmm.Alloc(before.frames) == (pmm.Abs(), page)
      requires c < NUM_CACHES && |caches| == NUM_CACHES && Sized(caches[c], c)
      modifies this, mem
      ensures Linked() && Abs() == Grow(before, c) && reserved == old(reserved)
      ensures SizesKept(old(caches))
      ensures OnlyHeadersChanged(old(mem[..]))
    {
      hide Pmm.Alloc, RealSize, PerPage, Holds, Inv, Threaded, HeaderWord, AddPage, ChainAt, Good,
           Frames;
      HoldsShape(mem[..], caches, cachesAt, before, reserved);
      AllocatedFrame(before, reserved);
      ghost var m0, caches0 := mem[..], caches;
      caches := caches[c := caches[c].(totalPages := caches[c].totalPages + 1)];
      LinkSlots(c, page, page / 4096);
      heap := AddPage(heap, c, page / 4096);
      GrowHolds(m0, mem[..], caches0, caches[c].freeList, cachesAt, before, c, reserved);
      assert caches == Grown(caches0, c, caches[c].freeList);
    }

    ghost predicate SizesKept(before: seq<CacheInfo>)
      reads this
    {
      && |caches| == |before|
      && forall d :: 0 <= d < |caches| ==>
        caches[d].blockSize == before[d].blockSize && caches[d].realBlockSize == before[d].realBlockSize
    }

    /** The loop of cache_grow: thread the slots of the page onto the free list. */
    method LinkSlots(c: nat, page: nat, ghost f: nat)
      requires mem.Length == MEMORY_WORDS && |caches| == NUM_CACHES && c < NUM_CACHES && Sized(caches[c], c)
      requires Inv(heap) && ChainAt(mem[..], caches[c].freeList, heap.chains[c])
      requires page == f * 4096 && 0 < f < FRAMES && f !in heap.owner
      modifies this`caches, mem
      ensures |caches| == NUM_CACHES
      ensures caches == old(caches)[c := old(caches[c]).(freeList := caches[c].freeList)]
      ensures Threaded(old(mem[..]), mem[..], caches[c].freeList, heap, c, f, PerPage(c))
    {
      hide Threaded, ChainAt, Slots;
      var blockSz := caches[c].realBlockSize;
      var ptr := page;
      var numBlocks := 4096 / blockSz;
      assert numBlocks == PerPage(c);
      ThreadedStart(mem[..], caches[c].freeList, heap, c, f);
      hide Inv, PerPage, RealSize;
      for i := 0 to numBlocks
        invariant |caches| == NUM_CACHES
        invariant caches == old(caches)[c := old(caches[c]).(freeList := caches[c].freeList)]
        invariant ptr == f * 4096 + i * blockSz
        invariant Threaded(old(mem[..]), mem[..], caches[c].freeList, heap, c, f, i)
      {
        ThreadedStep(old(mem[..]), mem[..], caches[c].freeList, heap, c, f, i);
        assert ptr == Block(f, c, i).Addr();
        Next(i, blockSz);
        mem[ptr / 4] := caches[c].freeList;
        caches := caches[c := caches[c].(freeList := ptr)];
        ptr := ptr + blockSz;
      }
    }

    static lemma Next(i: nat, n: nat)
      ensures (i + 1) * n == i * n + n
    {
    }

    /** kmalloc_init, on zeroed caches. */
    method Init()
      requires Linked() && heap == NO_HEAP
      modifies this, mem, pmm, pmm.bitmap
      ensures Valid() && Abs() == Boot(old(Abs()), 0) && reserved == old(reserved)
    {
      hide Holds, RealSize, PerPage, Grow, Inv, Good, Frames;
      HoldsShape(mem[..], caches, cachesAt, Abs(), reserved);
      for i := 0 to NUM_CACHES
        invariant Linked() && |caches| == NUM_CACHES && |heap.chains| == NUM_CACHES && reserved == old(reserved)
        invariant forall c :: 0 <= c < i ==> Sized(caches[c], c)
        invariant Boot(Abs(), i) == Boot(old(Abs()), 0)
      {
        InitCache(i);
      }
    }

    method InitCache(i: nat)
      requires Linked() && i < NUM_CACHES
      modifies this, mem, pmm, pmm.bitmap
      ensures |old(heap).chains| == |heap.chains| == NUM_CACHES && |old(caches)| == |caches| == NUM_CACHES
      ensures Linked() && Abs() == Grow(old(Abs()), i) && reserved == old(reserved) && Sized(caches[i], i)
      ensures forall c :: 0 <= c < NUM_CACHES && c != i && Sized(old(caches)[c], c) ==> Sized(caches[c], c)
    {
      hide Holds, RealSize, PerPage, Grow, Inv, Good, Frames, HeaderWord;
      HoldsShape(mem[..], caches, cachesAt, Abs(), reserved);
      SizesDoNotMatter(mem[..], caches, cachesAt, Abs(), reserved, i, BLOCK_SIZES[i], BLOCK_SIZES[i] + HEADER);
      caches := caches[i := caches[i].(blockSize := BLOCK_SIZES[i], realBlockSize := BLOCK_SIZES[i] + HEADER)];
      RealSizeOfCache(i);
      CacheGrow(i);
      HoldsShape(mem[..], caches, cachesAt, Abs(), reserved);
    }

    static lemma RealSizeOfCache(c: nat)
      requires c < NUM_CACHES
      ensures RealSize(c) == BLOCK_SIZES[c] + HEADER
    {
    }

    static lemma HoldsShape(m: seq<Word>, caches: seq<CacheInfo>, cachesAt: CachesAt, s: System, reserved: set<nat>)
      requires |m| == MEMORY_WORDS && Holds(m, caches, cachesAt, s, reserved)
      ensures |caches| == NUM_CACHES && |s.heap.chains| == NUM_CACHES && Inv(s.heap) && Good(s, reserved)
      ensures forall c :: 0 <= c < NUM_CACHES ==> ChainAt(m, caches[c].freeList, s.heap.chains[c])
      ensures forall c :: 0 <= c < NUM_CACHES ==> (caches[c].freeList == 0 <==> s.heap.chains[c] == [])
      ensures forall b :: b in s.heap.live ==>
        InHeap(s.heap, b) && b.Index() < MEMORY_WORDS && m[b.Index()] == Tag(cachesAt, b.cls)
    {
      hide RealSize, PerPage;
      forall c | 0 <= c < NUM_CACHES
        ensures caches[c].freeList == 0 <==> s.heap.chains[c] == []
      {
        if s.heap.chains[c] != [] {
          BlockInFrame(s.heap.chains[c][0]);
        }
      }
    }

    static lemma SizesDoNotMatter(m: seq<Word>, caches: seq<CacheInfo>, cachesAt: CachesAt, s: System,
                                  reserved: set<nat>, c: nat, n: nat, r: nat)
      requires |m| == MEMORY_WORDS && Holds(m, caches, cachesAt, s, reserved) && c < NUM_CACHES
      ensures |caches| == NUM_CACHES
      ensures Holds(m, caches[c := caches[c].(blockSize := n, realBlockSize := r)], cachesAt, s, reserved)
    {
      assert Heads(caches[c := caches[c].(blockSize := n, realBlockSize := r)]) == Heads(caches);
    }

    /** kmalloc: null, or the address 4 bytes behind the header of the served block. The
        bytes from there on are no header words. */
    method Kmalloc(size: nat) returns (ptr: nat)
      requires Valid()
      modifies this, mem, pmm, pmm.bitmap
      ensures Valid() && reserved == old(reserved)
      ensures Abs() == Malloc(old(Abs()), size).0
      ensures var r := Malloc(old(Abs()), size).1;
        if r.Null? then ptr == 0 else r.block.cls <= 8 && ptr == r.block.Addr() + 4
      ensures ptr != 0 && size <= 4092 ==> forall w :: ptr <= 4 * w < ptr + size ==> !HeaderWord(heap, w)
      ensures OnlyHeadersChanged(old(mem[..]))
    {
      hide Pmm.Alloc, RealSize, PerPage, Holds, Inv, Good, Frames, Malloc, HeaderWord, Block.Addr;
      HoldsShape(mem[..], caches, cachesAt, Abs(), reserved);
      ServedBytes(Abs(), size, reserved);
      if size == 0 {
        ZeroIsNull(Abs());
        return 0;
      }
      if size > 2048 {
        ptr := KmallocLarge(size);
        return;
      }
      for i := 0 to NUM_CACHES
        invariant Valid() && Abs() == old(Abs()) && reserved == old(reserved) && mem[..] == old(mem[..])
        invariant |caches| == NUM_CACHES
        invariant forall d :: 0 <= d < i ==> BLOCK_SIZES[d] < size
        invariant i == NUM_CACHES ==> BLOCK_SIZES[NUM_CACHES - 1] < size
      {
        assert Sized(caches[i], i);
        if caches[i].blockSize >= size {
          ptr := KmallocFrom(i, size);
          return;
        }
      }
      assert false;
    }

    static lemma ServedBytes(s: System, size: nat, reserved: set<nat>)
      requires Good(s, reserved)
      ensures var (s', r) := Malloc(s, size);
        r.Served? && size <= 4092 ==>
          && r.block.cls <= 8
          && forall w :: r.block.Addr() + 4 <= 4 * w < r.block.Addr() + 4 + size ==> !HeaderWord(s'.heap, w)
    {
      var (s', r) := Malloc(s, size);
      if r.Served? && size <= 4092 {
        ServedIsLive(s, size, reserved);
        hide Good, Malloc, Block.Addr, Block.Index;
        forall w: nat | r.block.Addr() + 4 <= 4 * w < r.block.Addr() + 4 + size
          ensures !HeaderWord(s'.heap, w)
        {
          LiveBytes(s'.heap, r.block, w);
        }
      }
    }

    static lemma ZeroIsNull(s: System)
      requires |s.heap.chains| == NUM_CACHES
      ensures Malloc(s, 0) == (s, Null)
    {
    }

    method KmallocLarge(size: nat) returns (ptr: nat)
      requires Valid() && size > 2048
      modifies this, mem, pmm, pmm.bitmap
      ensures Valid() && reserved == old(reserved)
      ensures Abs() == Malloc(old(Abs()), size).0
      ensures var r := Malloc(old(Abs()), size).1;
        if r.Null? then ptr == 0 else r.block.cls <= 8 && ptr == r.block.Addr() + 4
      ensures OnlyHeadersChanged(old(mem[..]))
    {
      hide Pmm.Alloc, RealSize, PerPage, Holds, Inv, HeaderWord, Good, Frames;
      ghost var before := Abs();
      HoldsShape(mem[..], caches, cachesAt, before, reserved);
      AllocatedFrame(before, reserved);
      if Pmm.Alloc(before.frames).1 != 0 {
        LargeHolds(mem[..], caches, cachesAt, before, size, reserved);
      }
      var page := pmm.AllocPage();
      if page == 0 {
        return 0;
      }
      mem[page / 4] := 0;
      heap := Malloc(before, size).0.heap;
      ptr := page + HEADER;
    }

    method KmallocFrom(c: nat, size: nat) returns (ptr: nat)
      requires Valid() && c < NUM_CACHES && 0 < size <= BLOCK_SIZES[c]
      requires forall d :: 0 <= d < c ==> BLOCK_SIZES[d] < size
      modifies this, mem, pmm, pmm.bitmap
      ensures Valid() && reserved == old(reserved)
      ensures Abs() == Malloc(old(Abs()), size).0
      ensures var r := Malloc(old(Abs()), size).1;
        if r.Null? then ptr == 0 else r.block.cls <= 8 && ptr == r.block.Addr() + 4
      ensures OnlyHeadersChanged(old(mem[..]))
    {
      hide Pmm.Alloc, RealSize, PerPage, Holds, Inv, Good, Frames, Grow, HeaderWord;
      assert ClassFor(size, 0) == c;
      HoldsShape(mem[..], caches, cachesAt, Abs(), reserved);
      if caches[c].freeList == 0 {
        CacheGrow(c);
      }
      HoldsShape(mem[..], caches, cachesAt, Abs(), reserved);
      if caches[c].freeList == 0 {
        return 0;
      }
      PopHeaders(heap, c, size);
      ptr := TakeHead(c, size);
    }

    static lemma PopHeaders(h: Heap, c: nat, size: nat)
      requires |h.chains| == NUM_CACHES && c < NUM_CACHES && h.chains[c] != []
      ensures forall w :: HeaderWord(Pop(h, c, size), w) == HeaderWord(h, w)
    {
      forall b
        ensures InHeap(Pop(h, c, size), b) == InHeap(h, b)
      {
      }
    }

    /** Take the head off a free list that is not empty. */
    method TakeHead(c: nat, size: nat) returns (ptr: nat)
      requires Valid() && c < NUM_CACHES && 0 < size <= BLOCK_SIZES[c]
      requires |heap.chains| == NUM_CACHES && heap.chains[c] != []
      modifies this, mem
      ensures Valid() && reserved == old(reserved)
      ensures Abs() == old(Abs()).(heap := Pop(old(heap), c, size))
      ensures old(heap.chains[c])[0].Ok() && ptr == old(heap.chains[c])[0].Payload()
      ensures OnlyHeadersChanged(old(mem[..]))
    {
      hide RealSize, PerPage, Holds, Inv, Good, Frames, HeaderWord, Block.Addr, Block.Index, Block.Ok, InHeap;
      ghost var before := Abs();
      HoldsShape(mem[..], caches, cachesAt, before, reserved);
      PopHolds(mem[..], caches, cachesAt, before, c, size, reserved);
      ghost var b := heap.chains[c][0];
      IsHeader(Pop(heap, c, size), b);
      var block := caches[c].freeList;
      caches := caches[c := caches[c].(freeList := mem[block / 4])];
      mem[block / 4] := cachesAt + CACHE_INFO * c;
      heap := Pop(heap, c, size);
      ptr := block + HEADER;
    }

    static lemma IsHeader(h: Heap, b: Block)
      requires InHeap(h, b)
      ensures b.Ok() && HeaderWord(h, b.Index())
    {
    }

    /** A kmalloc and, if it serves a block, the kfree of its pointer: everything is as it
        was before, bitmap and counter included, but for a page that the cache has got. */
    method KmallocThenKfree(size: nat)
      requires Valid()
      modifies this, mem, pmm, pmm.bitmap
      ensures Valid() && reserved == old(reserved) && |old(heap).chains| == 8
      ensures Malloc(old(Abs()), size).1.Served? && (size > 2048 || old(heap).chains[ClassFor(size, 0)] != []) ==>
        Abs() == old(Abs())
      ensures Malloc(old(Abs()), size).1.Served? && size <= 2048 && old(heap).chains[ClassFor(size, 0)] == [] ==>
        Abs() == Grow(old(Abs()), ClassFor(size, 0))
      ensures Malloc(old(Abs()), size).1.Null? ==> Abs() == Malloc(old(Abs()), size).0
    {
      hide Pmm.Alloc, RealSize, PerPage, Holds, Inv, Good, Frames, Malloc, HeaderWord, Block.Addr, Grow, Release;
      ghost var s := Abs();
      HoldsShape(mem[..], caches, cachesAt, s, reserved);
      var ptr := Kmalloc(size);
      ghost var b := Block(0, 0, 0);
      if Malloc(s, size).1.Served? {
        b := Malloc(s, size).1.block;
        FreeUndoesMalloc(s, size, reserved);
      }
      Kfree(ptr, b);
    }

    static lemma LargeAddress(b: Block)
      requires b.Ok() && b.cls == LARGE
      ensures b.Addr() == b.frame * 4096 && b.Addr() < TWO32
    {
      BlockInFrame(b);
    }

    /** kfree of the pointer to a live block, or of null. */
    method Kfree(ptr: nat, ghost b: Block)
      requires Valid()
      requires ptr != 0 ==> b in heap.live && b.cls <= LARGE && ptr == b.Payload()
      modifies this, mem, pmm, pmm.bitmap
      ensures Valid() && reserved == old(reserved)
      ensures Abs() == if ptr == 0 then old(Abs()) else Release(old(Abs()), b)
      ensures forall w :: 0 <= w < mem.Length && !HeaderWord(old(heap), w) ==> mem[w] == old(mem[w])
    {
      if ptr == 0 {
        return;
      }
      HoldsShape(mem[..], caches, cachesAt, Abs(), reserved);
      BlockInFrame(b);
      HeadTag(cachesAt, b.cls);
      var header := ptr - HEADER;
      assert header / 4 == b.Index();
      if mem[header / 4] == 0 {
        KfreeLarge(header, b);
      } else {
        var c := (mem[header / 4] - cachesAt) / CACHE_INFO;
        KfreeSmall(header, c, b);
      }
    }

    method KfreeLarge(header: nat, ghost b: Block)
      requires Valid() && b in heap.live && b.cls == LARGE && header == b.Addr() && b.Ok()
      modifies this, pmm, pmm.bitmap
      ensures Valid() && reserved == old(reserved) && Abs() == Release(old(Abs()), b)
    {
      hide RealSize, PerPage, Pmm.Free, Holds, Inv, Good, Frames;
      ghost var before := Abs();
      HoldsShape(mem[..], caches, cachesAt, before, reserved);
      ReleaseLargeHolds(mem[..], caches, cachesAt, before, b, reserved);
      LargeAddress(b);
      pmm.FreePage(header);
      heap := Release(before, b).heap;
    }

    method KfreeSmall(header: nat, c: nat, ghost b: Block)
      requires Valid() && b in heap.live && b.cls == c < NUM_CACHES && header == b.Addr()
      modifies this, mem
      ensures Valid() && reserved == old(reserved) && Abs() == Release(old(Abs()), b)
      ensures forall w :: 0 <= w < mem.Length && !HeaderWord(old(heap), w) ==> mem[w] == old(mem[w])
    {
      hide RealSize, PerPage, Holds, Inv, Good, Frames, Block.Index, Block.Addr, HeaderWord;
      ghost var before := Abs();
      HoldsShape(mem[..], caches, cachesAt, before, reserved);
      ReleaseSmallHolds(mem[..], caches, cachesAt, before, b, reserved);
      IsHeader(heap, b);
      mem[header / 4] := caches[c].freeList;
      caches := caches[c := caches[c].(freeList := header)];
      heap := Release(before, b).heap;
    }
  }
}
