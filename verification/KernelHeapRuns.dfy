/** Every run of the heap: kmalloc_init, then kmalloc of any size and kfree of
    live blocks in any order. */
module HeapRuns {
  import opened FrameBits
  import opened FrameAllocators
  import Pmm = FrameSpec
  import opened HeapBlocks
  import opened HeapSpec

  datatype Op = Kmalloc(size: nat) | Kfree(block: Block)

  const NO_HEAP := Heap([[], [], [], [], [], [], [], []], map[], map[])

  /** kmalloc_init from cache c on: one page for each cache, if there is one. */
  function Boot(s: System, c: nat): (s': System)
    requires |s.heap.chains| == NUM_CACHES && c <= NUM_CACHES
    ensures |s'.heap.chains| == NUM_CACHES
    decreases NUM_CACHES - c
  {
    if c == NUM_CACHES then s else Boot(Grow(s, c), c + 1)
  }

  function Step(s: System, op: Op): (s': System)
    requires |s.heap.chains| == NUM_CACHES
    requires op.Kfree? ==> op.block.cls <= LARGE
    ensures |s'.heap.chains| == NUM_CACHES
  {
    match op
    case Kmalloc(size) => Malloc(s, size).0
    case Kfree(b) => Release(s, b)
  }

  /** s' is reached from s by the operations; only live blocks are freed. */
  ghost predicate Reaches(s: System, ops: seq<Op>, s': System)
    requires |s.heap.chains| == NUM_CACHES
    decreases |ops|
  {
    if ops == [] then s' == s
    else
      && (ops[0].Kfree? ==> ops[0].block.cls <= LARGE && ops[0].block in s.heap.live)
      && Reaches(Step(s, ops[0]), ops[1..], s')
  }

  /** A state of the running kernel: frames is the allocator before kmalloc_init. */
  ghost predicate Reachable(frames: Pmm.State, ops: seq<Op>, s: System) {
    Reaches(Boot(System(NO_HEAP, frames), 0), ops, s)
  }

  lemma {:induction false} BootGood(s: System, c: nat, reserved: set<nat>)
    requires Good(s, reserved) && c <= NUM_CACHES
    ensures Good(Boot(s, c), reserved)
    decreases NUM_CACHES - c
  {
    if c < NUM_CACHES {
      GrowGood(s, c, reserved);
      BootGood(Grow(s, c), c + 1, reserved);
    }
  }

  lemma {:induction false} ReachesGood(s: System, ops: seq<Op>, s': System, reserved: set<nat>)
    requires Good(s, reserved) && Reaches(s, ops, s')
    ensures Good(s', reserved)
    decreases |ops|
  {
    if ops != [] {
      match ops[0]
      case Kmalloc(size) =>
        MallocGood(s, size, reserved);
        ReachesGood(Step(s, ops[0]), ops[1..], s', reserved);
      case Kfree(b) =>
        ReleaseGood(s, b, reserved);
        ReachesGood(Step(s, ops[0]), ops[1..], s', reserved);
    }
  }

  /** The invariant holds in every reachable state. */
  lemma RunsAreGood(frames: Pmm.State, ops: seq<Op>, s: System)
    requires 0 in frames.used && Reachable(frames, ops, s)
    ensures Good(s, frames.used)
  {
    var start := System(NO_HEAP, frames);
    assert Inv(NO_HEAP);
    BootGood(start, 0, frames.used);
    ReachesGood(Boot(start, 0), ops, s, frames.used);
  }

  /** In every reachable state the slots of live and free blocks, headers included,
      are pairwise disjoint; each lies inside one frame that the bitmap marks used
      and that was not in use before kmalloc_init. */
  lemma BlocksNeverOverlap(frames: Pmm.State, ops: seq<Op>, s: System, a: Block, b: Block)
    requires 0 in frames.used && Reachable(frames, ops, s)
    requires InHeap(s.heap, a) && InHeap(s.heap, b) && a != b
    ensures a.End() <= b.Addr() || b.End() <= a.Addr()
    ensures a.frame in s.frames.used && a.frame !in frames.used
    ensures a.frame * 4096 <= a.Addr() && a.End() <= (a.frame + 1) * 4096
  {
    RunsAreGood(frames, ops, s);
    BlocksDisjoint(a, b);
    BlockInFrame(a);
  }

  /** If frames 0..k are in use before kmalloc_init, as pmm_init leaves the kernel and
      the bitmap, the heap lies above them. */
  lemma HeapAboveKernel(frames: Pmm.State, ops: seq<Op>, s: System, b: Block, k: nat)
    requires Reachable(frames, ops, s) && InHeap(s.heap, b)
    requires forall f: nat :: f <= k ==> f in frames.used
    ensures b.Addr() >= (k + 1) * 4096
  {
    RunsAreGood(frames, ops, s);
    BlockInFrame(b);
    assert b.frame > k;
  }

  /** No header and no payload byte of a reachable heap lies in a bitmap word that an
      allocation or a free can touch, if pmm_init has marked frames 0 up to the last
      one that the bitmap reaches into. */
  lemma HeapMissesBitmap(frames: Pmm.State, ops: seq<Op>, s: System, b: Block,
                         kernelEnd: nat, word: nat, byte: nat)
    requires Reachable(frames, ops, s) && InHeap(s.heap, b)
    requires forall f: nat :: f <= (kernelEnd + BITMAP_BYTES) / 4096 ==> f in frames.used
    requires word < WORDS && byte < 4
    ensures kernelEnd + 4 * word + byte < b.Addr()
  {
    HeapAboveKernel(frames, ops, s, b, (kernelEnd + BITMAP_BYTES) / 4096);
    BitmapStorageReserved(kernelEnd, word, byte);
  }

  /** The bytes that kmalloc(size) hands out stay inside their block exactly when
      size is at most 4092: a larger request gets one page all the same. */
  lemma PayloadFits(frames: Pmm.State, ops: seq<Op>, s: System, b: Block)
    requires 0 in frames.used && Reachable(frames, ops, s) && b in s.heap.live
    ensures b.cls <= LARGE
    ensures b.Payload() + s.heap.live[b] <= b.End() <==> s.heap.live[b] <= 4092
  {
    RunsAreGood(frames, ops, s);
    hide Inv, Reachable;
    LiveSize(s.heap, b);
    hide Block.Addr;
  }

  /** What a live block was asked for, against what it holds. */
  lemma LiveSize(h: Heap, b: Block)
    requires Inv(h) && b in h.live
    ensures b.cls <= LARGE && (h.live[b] <= 4092 <==> HEADER + h.live[b] <= RealSize(b.cls))
  {
    hide PerPage, Block.Addr;
    ClassSizes(b.cls);
  }

  lemma ClassSizes(cls: nat)
    ensures cls < NUM_CACHES ==> RealSize(cls) == BLOCK_SIZES[cls] + HEADER && BLOCK_SIZES[cls] <= 2048
  {
  }

  lemma {:induction false} BootTakes(s: System, c: nat)
    requires |s.heap.chains| == NUM_CACHES && c <= NUM_CACHES && 0 in s.frames.used
    ensures var f := Boot(s, c).frames;
      0 in f.used && |f.used| <= |s.frames.used| + NUM_CACHES - c && f.early == s.frames.early
    decreases NUM_CACHES - c
  {
    if c < NUM_CACHES {
      Pmm.AllocIsFirstFit(s.frames);
      hide Pmm.Alloc, AddPage;
      BootTakes(Grow(s, c), c + 1);
    }
  }

  lemma {:induction false} AllUsedCount(used: set<nat>, n: nat)
    requires forall f: nat :: f < n ==> f in used
    ensures |used| >= n
  {
    if n > 0 {
      AllUsedCount(used - {n - 1}, n - 1);
    }
  }

  /** The payload of a live block leaves it. */
  ghost predicate Overflows(h: Heap, b: Block) {
    b in h.live && b.cls <= LARGE && b.Payload() + h.live[b] > b.End()
  }

  lemma LargeServed(s: System, size: nat, f: nat)
    requires |s.heap.chains| == NUM_CACHES && 0 in s.frames.used && size > 4092
    requires f < Pmm.Limit(s.frames.early) && f !in s.frames.used
    ensures var (s', r) := Malloc(s, size); r.Served? && Overflows(s'.heap, r.block)
  {
    Pmm.AllocIsFirstFit(s.frames);
    hide Pmm.Alloc, Pmm.Limit;
  }

  lemma OneStep(frames: Pmm.State, op: Op)
    requires op.Kmalloc?
    ensures Reachable(frames, [op], Step(Boot(System(NO_HEAP, frames), 0), op))
  {
    hide Boot, Step;
    var s := Step(Boot(System(NO_HEAP, frames), 0), op);
    assert [op][1..] == [] && Reaches(s, [], s);
  }

  lemma SomeFrameClear(frames: Pmm.State) returns (f: nat)
    requires 0 in frames.used && |frames.used| + NUM_CACHES < Pmm.Limit(frames.early)
    ensures var s := Boot(System(NO_HEAP, frames), 0);
      0 in s.frames.used && f < Pmm.Limit(s.frames.early) && f !in s.frames.used
  {
    hide Boot, Pmm.Limit;
    BootTakes(System(NO_HEAP, frames), 0);
    var used, n := Boot(System(NO_HEAP, frames), 0).frames.used, Pmm.Limit(frames.early);
    if forall g: nat :: g < n ==> g in used {
      AllUsedCount(used, n);
    }
    f :| f < n && f !in used;
  }

  /** Such requests are served: from any allocator with more than eight clear frames
      in range, the first kmalloc of more than 4092 bytes gets such a block. */
  lemma OversizeServed(frames: Pmm.State, size: nat)
    requires 0 in frames.used && |frames.used| + 8 < (if frames.early then 0x400 else 0xF_FFFF) && size > 4092
    ensures exists s, b :: Reachable(frames, [Kmalloc(size)], s) && Overflows(s.heap, b)
  {
    assert Pmm.Limit(frames.early) == if frames.early then 0x400 else 0xF_FFFF;
    hide Boot, Pmm.Limit, Malloc, Reachable, Overflows;
    var f := SomeFrameClear(frames);
    OneStep(frames, Kmalloc(size));
    LargeServed(Boot(System(NO_HEAP, frames), 0), size, f);
  }

  /** No slot of the heap is both free and live, or in two chains, or in none. */
  lemma EachSlotOnce(frames: Pmm.State, ops: seq<Op>, s: System, b: Block)
    requires 0 in frames.used && Reachable(frames, ops, s)
    ensures |s.heap.chains| == NUM_CACHES
    ensures InHeap(s.heap, b) <==> b in s.heap.live || exists c :: 0 <= c < NUM_CACHES && b in s.heap.chains[c]
    ensures forall c :: 0 <= c < NUM_CACHES && b in s.heap.chains[c] ==> c == b.cls && b !in s.heap.live
  {
    RunsAreGood(frames, ops, s);
  }

  // ---------- Conservation ----------

  ghost function OwnedBy(owner: map<nat, nat>, c: nat): set<nat> {
    set f | f in owner && owner[f] == c
  }

  ghost function PagesOf(h: Heap, c: nat): set<nat> {
    OwnedBy(h.owner, c)
  }

  ghost function LiveOf(h: Heap, c: nat): set<Block> {
    set b | b in h.live && b.cls == c
  }

  ghost function PageSlots(f: nat, c: nat, n: nat): set<Block> {
    set k | 0 <= k < n :: Block(f, c, k)
  }

  ghost function AllSlots(pages: set<nat>, c: nat, n: nat): set<Block> {
    set f, k | f in pages && 0 <= k < n :: Block(f, c, k)
  }

  lemma {:induction false} PageSlotsCount(f: nat, c: nat, n: nat)
    ensures |PageSlots(f, c, n)| == n
  {
    if n == 0 {
      assert PageSlots(f, c, n) == {};
    } else {
      PageSlotsCount(f, c, n - 1);
      assert PageSlots(f, c, n) == PageSlots(f, c, n - 1) + {Block(f, c, n - 1)};
    }
  }

  lemma {:induction false} AllSlotsCount(pages: set<nat>, c: nat, n: nat)
    ensures |AllSlots(pages, c, n)| == |pages| * n
  {
    if pages == {} {
      assert AllSlots(pages, c, n) == {};
    } else {
      var f :| f in pages;
      var rest := AllSlots(pages - {f}, c, n);
      assert AllSlots(pages, c, n) == rest + PageSlots(f, c, n);
      assert rest !! PageSlots(f, c, n);
      PageSlotsCount(f, c, n);
      AllSlotsCount(pages - {f}, c, n);
      assert |pages| == |pages - {f}| + 1;
      Distribute(|pages - {f}|, n);
    }
  }

  lemma Distribute(p: nat, n: nat)
    ensures (p + 1) * n == p * n + n
  {
  }

  lemma {:induction false} ChainCount(chain: seq<Block>)
    requires NoDuplicates(chain)
    ensures |set b | b in chain| == |chain|
  {
    if chain != [] {
      var rest := chain[1..];
      ChainCount(rest);
      assert (set b | b in chain) == {chain[0]} + set b | b in rest;
    }
  }

  /** Per cache, free blocks plus live blocks are all the blocks of its pages; and
      every directly allocated page is one live block. */
  lemma CacheConservation(h: Heap, c: nat)
    requires Inv(h) && c <= LARGE
    ensures |h.chains| == NUM_CACHES
    ensures c < NUM_CACHES ==> |h.chains[c]| + |LiveOf(h, c)| == |PagesOf(h, c)| * PerPage(c)
    ensures c == LARGE ==> |LiveOf(h, c)| == |PagesOf(h, c)|
  {
    assert PerPage(LARGE) == 1;
    hide PerPage, RealSize, Inv, PagesOf, LiveOf, AllSlots;
    assert |h.chains| == NUM_CACHES by { ChainsShape(h); }
    AllSlotsCount(PagesOf(h, c), c, PerPage(c));
    SlotsCount(h, c);
    if c < NUM_CACHES {
      ChainsShape(h);
      ChainCount(h.chains[c]);
    }
  }

  lemma ChainsShape(h: Heap)
    requires Inv(h)
    ensures |h.chains| == NUM_CACHES && forall c :: 0 <= c < NUM_CACHES ==> NoDuplicates(h.chains[c])
  {
  }

  lemma SlotsCount(h: Heap, c: nat)
    requires Inv(h) && c <= LARGE && |h.chains| == NUM_CACHES
    ensures |AllSlots(PagesOf(h, c), c, PerPage(c))| == |FreeOf(h, c)| + |LiveOf(h, c)|
  {
    SlotsAreInHeap(h, c);
    SlotsAreFreeOrLive(h, c);
    hide *;
    assert AllSlots(PagesOf(h, c), c, PerPage(c)) == FreeOf(h, c) + LiveOf(h, c);
  }

  ghost function FreeOf(h: Heap, c: nat): set<Block>
    requires |h.chains| == NUM_CACHES
  {
    if c < NUM_CACHES then set b | b in h.chains[c] else {}
  }

  lemma SlotsAreFreeOrLive(h: Heap, c: nat)
    requires Inv(h) && c <= LARGE
    ensures forall b :: InHeap(h, b) && b.cls == c <==> b in FreeOf(h, c) + LiveOf(h, c)
    ensures FreeOf(h, c) !! LiveOf(h, c)
  {
    hide PerPage, RealSize;
  }

  lemma SlotsAreInHeap(h: Heap, c: nat)
    requires Inv(h) && c <= LARGE
    ensures forall b :: b in AllSlots(PagesOf(h, c), c, PerPage(c)) <==> InHeap(h, b) && b.cls == c
  {
    hide PerPage, RealSize;
    forall b
      ensures b in AllSlots(PagesOf(h, c), c, PerPage(c)) <==> InHeap(h, b) && b.cls == c
    {
      if InHeap(h, b) && b.cls == c {
        assert b == Block(b.frame, c, b.idx);
      }
    }
  }

  ghost function PageTotal(h: Heap, n: nat): nat {
    if n == 0 then 0 else PageTotal(h, n - 1) + |PagesOf(h, n - 1)|
  }

  ghost function PagesBelow(h: Heap, n: nat): set<nat> {
    set f | f in h.owner && h.owner[f] < n
  }

  lemma {:induction false} PagesPartition(h: Heap, n: nat)
    ensures PageTotal(h, n) == |PagesBelow(h, n)|
  {
    if n == 0 {
      assert PagesBelow(h, n) == {};
    } else {
      PagesPartition(h, n - 1);
      assert PagesBelow(h, n) == PagesBelow(h, n - 1) + PagesOf(h, n - 1);
      assert PagesBelow(h, n - 1) !! PagesOf(h, n - 1);
    }
  }

  /** The frames taken from the allocator are the pages of the eight caches and the
      live large pages. */
  lemma FrameConservation(frames: Pmm.State, ops: seq<Op>, s: System)
    requires 0 in frames.used && Reachable(frames, ops, s)
    ensures |s.frames.used| == |frames.used| + PageTotal(s.heap, NUM_CACHES) + |LiveOf(s.heap, LARGE)|
  {
    RunsAreGood(frames, ops, s);
    var h := s.heap;
    PagesPartition(h, LARGE + 1);
    CacheConservation(h, LARGE);
    assert PagesBelow(h, LARGE + 1) == h.owner.Keys;
    assert s.frames.used == frames.used + h.owner.Keys;
  }

  /** kmalloc returns null exactly for size 0, or when it needs a frame and every
      frame in range is used. */
  lemma NullExactly(s: System, size: nat, reserved: set<nat>)
    requires Good(s, reserved)
    ensures Malloc(s, size).1.Null? <==>
      size == 0 ||
      ((size > 2048 || s.heap.chains[ClassFor(size, 0)] == []) &&
       forall f: nat :: f < (if s.frames.early then 0x400 else 0xF_FFFF) ==> f in s.frames.used)
  {
    hide PerPage, RealSize;
    Pmm.AllocIsFirstFit(s.frames);
    AllocatedFrame(s, reserved);
    var (frames, addr) := Pmm.Alloc(s.frames);
    if addr != 0 {
      if 0 < size <= 2048 {
        ClassFacts(ClassFor(size, 0));
      }
    }
  }

  /** The class that serves a small request is the smallest that fits, and for 17
      bytes or more it wastes less than half. */
  lemma SmallestClass(s: System, size: nat, reserved: set<nat>)
    requires Good(s, reserved) && 0 < size <= 2048
    ensures var r := Malloc(s, size).1;
      r.Served? ==>
        var c := r.block.cls;
        && c < NUM_CACHES && size <= BLOCK_SIZES[c]
        && (forall d :: 0 <= d < NUM_CACHES && BLOCK_SIZES[d] >= size ==> c <= d)
        && (size >= 17 ==> BLOCK_SIZES[c] < 2 * size)
  {
    assert |s.heap.chains| == NUM_CACHES;
    hide PerPage, RealSize, Grow, Inv, Accounted;
    var c := ClassFor(size, 0);
    GrowGood(s, c, reserved);
    var s1 := if s.heap.chains[c] == [] then Grow(s, c) else s;
    HeadHasClass(s1.heap, c);
    assert c > 0 ==> BLOCK_SIZES[c - 1] < size && BLOCK_SIZES[c] == 2 * BLOCK_SIZES[c - 1];
  }

  lemma HeadHasClass(h: Heap, c: nat)
    requires Inv(h) && c < NUM_CACHES
    ensures h.chains[c] != [] ==> InHeap(h, h.chains[c][0]) && h.chains[c][0].cls == c && h.chains[c][0] !in h.live
  {
    hide PerPage, RealSize, InHeap;
    if h.chains[c] != [] {
      assert h.chains[c][0] in h.chains[c];
    }
  }

  /** A block that kmalloc serves is live with the size asked for. */
  lemma ServedIsLive(s: System, size: nat, reserved: set<nat>)
    requires Good(s, reserved) && Malloc(s, size).1.Served?
    ensures var (s', r) := Malloc(s, size);
      Inv(s'.heap) && r.block in s'.heap.live && s'.heap.live[r.block] == size && InHeap(s'.heap, r.block)
  {
    MallocGood(s, size, reserved);
    hide PerPage, RealSize, InHeap, Pmm.Alloc, Grow;
  }

  /** No word in the bytes of a live block of up to 4092 bytes is a header word. */
  lemma LiveBytes(h: Heap, b: Block, w: nat)
    requires Inv(h) && b in h.live && h.live[b] <= 4092
    requires b.cls <= LARGE && b.Addr() + 4 <= 4 * w < b.Addr() + 4 + h.live[b]
    ensures forall x :: InHeap(h, x) ==> x.Index() != w
  {
    hide RealSize, PerPage, Block.Addr;
    LiveSize(h, b);
    assert InHeap(h, b);
    BlockInFrame(b);
    forall x | InHeap(h, x)
      ensures x.Index() != w
    {
      BlockInFrame(x);
      if x != b {
        BlocksDisjoint(x, b);
      }
    }
  }

  /** The bytes of two live blocks do not overlap: those asked for, from the pointers on. */
  lemma LiveBytesDisjoint(frames: Pmm.State, ops: seq<Op>, s: System, a: Block, b: Block)
    requires 0 in frames.used && Reachable(frames, ops, s) && a != b
    requires a in s.heap.live && s.heap.live[a] <= 4092 && b in s.heap.live && s.heap.live[b] <= 4092
    ensures a.cls <= LARGE && b.cls <= LARGE
    ensures a.Addr() + 4 + s.heap.live[a] <= b.Addr() || b.Addr() + 4 + s.heap.live[b] <= a.Addr()
  {
    RunsAreGood(frames, ops, s);
    hide Reachable, RealSize, PerPage, Block.Addr;
    LiveSize(s.heap, a);
    LiveSize(s.heap, b);
    assert InHeap(s.heap, a) && InHeap(s.heap, b);
    BlocksDisjoint(a, b);
  }

  /** The block freed last is the next one that a request of its class gets. */
  lemma FreedIsNext(s: System, b: Block, size: nat)
    requires Inv(s.heap) && b in s.heap.live && b.cls < 8
    requires 0 < size <= BLOCK_SIZES[b.cls] && (b.cls > 0 ==> size > BLOCK_SIZES[b.cls - 1])
    ensures Malloc(Release(s, b), size).1 == Served(b)
  {
    ClassIs(size, b.cls);
    hide Inv, ClassFor;
    assert Release(s, b).heap.chains[b.cls][0] == b;
  }

  lemma ClassIs(size: nat, c: nat)
    requires c < 8 && size <= BLOCK_SIZES[c] && (c > 0 ==> size > BLOCK_SIZES[c - 1])
    ensures size <= 2048 && ClassFor(size, 0) == c
  {
    var d := ClassFor(size, 0);
    assert forall i, j :: 0 <= i <= j < 8 ==> BLOCK_SIZES[i] <= BLOCK_SIZES[j];
  }

  // ---------- What kmalloc_init leaves ----------

  /** One cache_grow: the lowest clear frame becomes the page of cache c. */
  lemma GrowTakes(s: System, c: nat, f: nat) returns (g: nat)
    requires |s.heap.chains| == 8 && c < 8 && 0 in s.frames.used
    requires f < (if s.frames.early then 0x400 else 0xF_FFFF) && f !in s.frames.used
    ensures g <= f && g !in s.frames.used && forall h: nat :: h < g ==> h in s.frames.used
    ensures Grow(s, c).heap == AddPage(s.heap, c, g)
    ensures Grow(s, c).frames.used == s.frames.used + {g} && Grow(s, c).frames.early == s.frames.early
  {
    Pmm.AllocIsFirstFit(s.frames);
    hide Pmm.Alloc, AddPage;
    g := Pmm.Alloc(s.frames).1 / 4096;
  }

  /** The caches from c on are as kmalloc_init finds them. */
  predicate Untouched(h: Heap, c: nat)
    requires |h.chains| == 8
  {
    && (forall d :: c <= d < 8 ==> h.chains[d] == [])
    && (forall f :: f in h.owner ==> h.owner[f] < c)
  }

  /** Cache d holds one page, with all its blocks free. */
  ghost predicate OnePage(h: Heap, d: nat)
    requires |h.chains| == 8 && d < 8
  {
    exists f: nat :: PagesOf(h, d) == {f} && h.chains[d] == Slots(f, d, PerPage(d))
  }

  lemma AddedPage(h: Heap, c: nat, f: nat)
    requires |h.chains| == 8 && c < 8 && Untouched(h, c) && f !in h.owner
    ensures var h' := AddPage(h, c, f);
      && Untouched(h', c + 1) && OnePage(h', c)
      && forall d :: 0 <= d < c && OnePage(h, d) ==> OnePage(h', d)
  {
    hide PerPage, RealSize, Slots;
    var h' := AddPage(h, c, f);
    assert PagesOf(h', c) == {f};
    assert Slots(f, c, PerPage(c)) + [] == Slots(f, c, PerPage(c));
    forall d | 0 <= d < c
      ensures PagesOf(h', d) == PagesOf(h, d) && h'.chains[d] == h.chains[d]
    {
    }
  }

  /** The caches before c have their page, and enough clear frames for the others remain. */
  ghost predicate Growing(s: System, c: nat, clear: set<nat>, reserved: set<nat>) {
    && Good(s, reserved) && |s.heap.chains| == 8 && c <= 8 && Untouched(s.heap, c)
    && (forall d :: 0 <= d < c ==> OnePage(s.heap, d))
    && |clear| >= 8 - c
    && forall f :: f in clear ==> f < (if s.frames.early then 0x400 else 0xF_FFFF) && f !in s.frames.used
  }

  lemma GrowingStep(s: System, c: nat, clear: set<nat>, reserved: set<nat>) returns (rest: set<nat>)
    requires c < 8 && Growing(s, c, clear, reserved)
    ensures Growing(Grow(s, c), c + 1, rest, reserved)
  {
    hide Good, AddPage, Untouched, OnePage, Grow;
    var f :| f in clear;
    ZeroUsed(s, reserved);
    var g := GrowTakes(s, c, f);
    GrowGood(s, c, reserved);
    AddedPage(s.heap, c, g);
    rest := clear - {if g in clear then g else f};
    AddPageChains(s.heap, c, g);
  }

  lemma AddPageChains(h: Heap, c: nat, f: nat)
    requires |h.chains| == 8 && c < 8
    ensures |AddPage(h, c, f).chains| == 8
  {
  }

  lemma {:induction false} BootGrowsEach(s: System, c: nat, clear: set<nat>, reserved: set<nat>)
    requires Growing(s, c, clear, reserved)
    ensures Growing(Boot(s, c), 8, {}, reserved)
    decreases 8 - c
  {
    hide Good, Untouched, OnePage, Grow;
    if c < 8 {
      var rest := GrowingStep(s, c, clear, reserved);
      BootGrowsEach(Grow(s, c), c + 1, rest, reserved);
    }
  }

  lemma ZeroUsed(s: System, reserved: set<nat>)
    requires Good(s, reserved)
    ensures 0 in s.frames.used && forall f :: f in s.heap.owner ==> f in s.frames.used
  {
    hide Inv;
  }

  /** If eight frames in range are clear, kmalloc_init gives each cache one page, all of
      whose 204, 113, 60, 31, 15, 7, 3 or 1 blocks are free. */
  lemma EachCacheHasPage(frames: Pmm.State, clear: set<nat>)
    requires 0 in frames.used && |clear| >= 8
    requires forall f :: f in clear ==> f < (if frames.early then 0x400 else 0xF_FFFF) && f !in frames.used
    ensures var h := Boot(System(NO_HEAP, frames), 0).heap;
      forall d :: 0 <= d < 8 ==>
        |PagesOf(h, d)| == 1 && |h.chains[d]| == [204, 113, 60, 31, 15, 7, 3, 1][d]
  {
    var s := System(NO_HEAP, frames);
    BootGrowsEach(s, 0, clear, frames.used);
    var h := Boot(s, 0).heap;
    hide Boot, Good;
    forall d | 0 <= d < 8
      ensures |PagesOf(h, d)| == 1 && |h.chains[d]| == [204, 113, 60, 31, 15, 7, 3, 1][d]
    {
      assert OnePage(h, d);
      BlocksPerPage(d);
      hide PerPage;
    }
  }

  lemma BlocksPerPage(c: nat)
    requires c < 8
    ensures PerPage(c) == [204, 113, 60, 31, 15, 7, 3, 1][c]
  {
  }

  lemma {:induction false} BootKeepsFirst(s: System, c: nat)
    requires |s.heap.chains| == 8 && 0 < c <= 8
    ensures Boot(s, c).heap.chains[0] == s.heap.chains[0]
    decreases 8 - c
  {
    if c < 8 {
      hide Pmm.Alloc, Slots, PerPage;
      BootKeepsFirst(Grow(s, c), c + 1);
    }
  }

  /** The first request of up to 16 bytes gets the last slot of the lowest clear page. */
  lemma FirstPointer(frames: Pmm.State, f: nat, size: nat)
    requires 0 < f < (if frames.early then 0x400 else 0xF_FFFF) && 0 < size <= 16
    requires f !in frames.used && forall g: nat :: g < f ==> g in frames.used
    ensures var r := Malloc(Boot(System(NO_HEAP, frames), 0), size).1;
      r.Served? && r.block.cls == 0 && r.block.Addr() + 4 == f * 4096 + 0xFE0
  {
    var s := System(NO_HEAP, frames);
    FirstChain(frames, f);
    BootKeepsFirst(Grow(s, 0), 1);
    assert Boot(s, 0) == Boot(Grow(s, 0), 1);
    hide Boot, Grow;
    FirstOfChain(Boot(s, 0), f, size);
  }

  lemma FirstChain(frames: Pmm.State, f: nat)
    requires 0 < f < (if frames.early then 0x400 else 0xF_FFFF)
    requires f !in frames.used && forall g: nat :: g < f ==> g in frames.used
    ensures |Grow(System(NO_HEAP, frames), 0).heap.chains| == 8
    ensures Grow(System(NO_HEAP, frames), 0).heap.chains[0] == Slots(f, 0, 204)
  {
    var s := System(NO_HEAP, frames);
    var g := GrowTakes(s, 0, f);
    BlocksPerPage(0);
    hide Grow, PerPage;
    assert AddPage(NO_HEAP, 0, f).chains[0] == Slots(f, 0, 204) + [] == Slots(f, 0, 204);
  }

  lemma FirstOfChain(s: System, f: nat, size: nat)
    requires |s.heap.chains| == 8 && s.heap.chains[0] == Slots(f, 0, 204) && 0 < size <= 16
    ensures Malloc(s, size).1.Served? && Malloc(s, size).1.block == Block(f, 0, 203)
    ensures Block(f, 0, 203).Addr() + 4 == f * 4096 + 0xFE0
  {
    ClassIs(size, 0);
    SlotAddress(Block(f, 0, 203));
  }

  /** kfree undoes kmalloc. Freeing the block that was just served gives back the very
      state before, or that after the growth if a small request had to grow its cache:
      the page of a cache is never returned. */
  lemma FreeUndoesMalloc(s: System, size: nat, reserved: set<nat>)
    requires Good(s, reserved) && s.frames.free < 0x1_0000_0000 && Malloc(s, size).1.Served?
    ensures var (s1, r) := Malloc(s, size);
      r.block.cls <= LARGE && r.block in s1.heap.live && r.block !in s.heap.live
      && Release(s1, r.block) ==
         if size <= 2048 && s.heap.chains[ClassFor(size, 0)] == [] then Grow(s, ClassFor(size, 0)) else s
  {
    hide PerPage, RealSize, InHeap, Pmm.Alloc;
    if size > 2048 {
      LargeUndone(s, size, reserved);
    } else {
      var c := ClassFor(size, 0);
      GrowGood(s, c, reserved);
      var s1 := if s.heap.chains[c] == [] then Grow(s, c) else s;
      HeadHasClass(s1.heap, c);
      assert s1.heap.live == s.heap.live;
      hide Inv, Grow;
      PopUndone(s1, c, size);
    }
  }

  lemma LargeUndone(s: System, size: nat, reserved: set<nat>)
    requires Good(s, reserved) && s.frames.free < 0x1_0000_0000
    requires size > 2048 && Malloc(s, size).1.Served?
    ensures var (s1, r) := Malloc(s, size);
      r.block.cls == LARGE && r.block in s1.heap.live && r.block !in s.heap.live
      && Release(s1, r.block) == s
  {
    hide PerPage, RealSize, InHeap;
    var (s1, r) := Malloc(s, size);
    AllocatedFrame(s, reserved);
    NotLiveIfNotOwned(s.heap, r.block);
    FrameUndone(s.frames);
    hide Good, Pmm.Alloc, Pmm.Free;
    assert Release(s1, r.block).heap.live == s.heap.live;
    assert Release(s1, r.block).heap.owner == s.heap.owner;
  }

  lemma FrameUndone(frames: Pmm.State)
    requires 0 in frames.used && frames.free < 0x1_0000_0000 && Pmm.Alloc(frames).1 != 0
    ensures Pmm.Free(Pmm.Alloc(frames).0, Pmm.Alloc(frames).1) == frames
  {
    Pmm.AllocIsFirstFit(frames);
    var f := Pmm.Scan(frames);
    assert frames.used + {f} - {f} == frames.used;
  }

  lemma PopUndone(s: System, c: nat, size: nat)
    requires |s.heap.chains| == NUM_CACHES && c < NUM_CACHES && s.heap.chains[c] != []
    requires s.heap.chains[c][0].cls == c && s.heap.chains[c][0] !in s.heap.live
    ensures Release(s.(heap := Pop(s.heap, c, size)), s.heap.chains[c][0]) == s
  {
    var h, b := s.heap, s.heap.chains[c][0];
    var h2 := Release(s.(heap := Pop(h, c, size)), b).heap;
    assert h2.live == h.live;
    assert [b] + h.chains[c][1..] == h.chains[c];
    assert h2.chains == h.chains;
  }

  lemma NotLiveIfNotOwned(h: Heap, b: Block)
    requires Inv(h) && b.frame !in h.owner
    ensures b !in h.live
  {
  }
}
