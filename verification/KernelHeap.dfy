/** Blocks of the kernel heap of src/kernel/kmalloc.cpp and where they lie. */
module HeapBlocks {
  import opened Machine
  import opened FrameBits

  const NUM_CACHES: nat := 8
  /** The class of a page that kmalloc takes directly from the frame allocator. */
  const LARGE: nat := 8
  /** sizeof(AllocHeader) */
  const HEADER: nat := 4

  const BLOCK_SIZES: seq<nat> := [16, 32, 64, 128, 256, 512, 1024, 2048]

  /** The stride of a class, header included. */
  function RealSize(cls: nat): (n: nat)
    requires cls <= LARGE
    ensures n > 0
  {
    if cls == LARGE then 4096 else BLOCK_SIZES[cls] + HEADER
  }

  /** Blocks that fit in one page. */
  function PerPage(cls: nat): (n: nat)
    requires cls <= LARGE
  {
    4096 / RealSize(cls)
  }

  /** One slot of a page: the page, its class and its position. */
  datatype Block = Block(frame: nat, cls: nat, idx: nat) {
    predicate Ok() {
      0 < frame < FRAMES && cls <= LARGE && idx < PerPage(cls)
    }

    /** The address of the header, which is also the address of the link word. */
    function Addr(): nat
      requires cls <= LARGE
    {
      frame * 4096 + idx * RealSize(cls)
    }

    function Index(): nat
      requires cls <= LARGE
    {
      Addr() / 4
    }

    function Payload(): nat
      requires cls <= LARGE
    {
      Addr() + HEADER
    }

    function End(): nat
      requires cls <= LARGE
    {
      Addr() + RealSize(cls)
    }
  }

  lemma ClassFacts(cls: nat)
    requires cls <= LARGE
    ensures RealSize(cls) % 4 == 0 && 8 <= RealSize(cls) <= 4096
    ensures PerPage(cls) >= 1 && PerPage(cls) * RealSize(cls) <= 4096
  {
    if
    case cls == 0 =>
    case cls == 1 =>
    case cls == 2 =>
    case cls == 3 =>
    case cls == 4 =>
    case cls == 5 =>
    case cls == 6 =>
    case cls == 7 =>
    case cls == 8 =>
  }

  lemma MulMonotone(a: nat, b: nat, r: nat)
    requires a <= b
    ensures a * r <= b * r
  {
  }

  lemma MulMultiple(a: nat, q: nat)
    ensures (a * (4 * q)) % 4 == 0
  {
    assert a * (4 * q) == 4 * (a * q);
  }

  /** A slot of a page, by its offset. */
  lemma SlotOffset(idx: nat, n: nat, r: nat)
    requires idx < n && n * r <= 4096 && r % 4 == 0
    ensures idx * r + r <= 4096 && idx * r % 4 == 0
  {
    MulMonotone(idx + 1, n, r);
    assert (idx + 1) * r == idx * r + r;
    MulMultiple(idx, r / 4);
    assert 4 * (r / 4) == r;
  }

  /** The word of an aligned address, by its frame and offset. */
  lemma WordOf(frame: nat, offset: nat)
    requires offset < 4096 && offset % 4 == 0
    ensures var addr := frame * 4096 + offset;
      addr % 4 == 0 && addr / 4 == frame * 1024 + offset / 4 && addr / 4 / 1024 == frame
  {
    Quotient(frame * 4096 + offset, frame * 1024 + offset / 4, 0, 4);
    Quotient(frame * 1024 + offset / 4, frame, offset / 4, 1024);
  }

  /** A block is word-aligned and lies inside its frame. */
  lemma BlockInFrame(b: Block)
    requires b.Ok()
    ensures b.Addr() % 4 == 0 && b.Index() * 4 == b.Addr()
    ensures b.frame * 4096 <= b.Addr() < b.Payload() < b.End() <= (b.frame + 1) * 4096
    ensures b.Index() / 1024 == b.frame && b.Index() < 0x4000_0000
  {
    ClassFacts(b.cls);
    hide RealSize, PerPage;
    SlotOffset(b.idx, PerPage(b.cls), RealSize(b.cls));
    WordOf(b.frame, b.idx * RealSize(b.cls));
  }

  /** The eight sizes and the strides, and where a slot is. */
  lemma SlotAddress(b: Block)
    requires b.cls <= LARGE
    ensures LARGE == 8 && BLOCK_SIZES == [16, 32, 64, 128, 256, 512, 1024, 2048]
    ensures RealSize(b.cls) == [20, 36, 68, 132, 260, 516, 1028, 2052, 4096][b.cls]
    ensures b.Addr() == b.frame * 4096 + b.idx * [20, 36, 68, 132, 260, 516, 1028, 2052, 4096][b.cls]
    ensures b.Payload() == b.Addr() + 4 && b.End() == b.Addr() + RealSize(b.cls)
  {
  }

  lemma SlotsOrdered(a: Block, b: Block)
    requires a.cls == b.cls <= LARGE && a.frame == b.frame && a.idx < b.idx
    ensures a.End() <= b.Addr()
  {
    hide RealSize;
    var r := RealSize(a.cls);
    MulMonotone(a.idx + 1, b.idx, r);
    assert (a.idx + 1) * r == a.idx * r + r;
  }

  /** Two different slots of frames that have one class each do not overlap. */
  lemma BlocksDisjoint(a: Block, b: Block)
    requires a.Ok() && b.Ok() && a != b
    requires a.frame == b.frame ==> a.cls == b.cls
    ensures a.End() <= b.Addr() || b.End() <= a.Addr()
    ensures a.Index() != b.Index()
  {
    BlockInFrame(a);
    BlockInFrame(b);
    hide RealSize, PerPage, Block.Addr, Block.End;
    if a.frame == b.frame {
      if a.idx < b.idx {
        SlotsOrdered(a, b);
      } else {
        SlotsOrdered(b, a);
      }
    }
  }
}

/** What the heap does, on its free chains, live blocks and pages. */
module HeapSpec {
  import opened FrameBits
  import Pmm = FrameSpec
  import opened HeapBlocks

  /** chains[c] is the free list of cache c, head first; live maps each live block
      to the size it was requested with; owner maps each page to its class. */
  datatype Heap = Heap(chains: seq<seq<Block>>, live: map<Block, nat>, owner: map<nat, nat>)

  datatype System = System(heap: Heap, frames: Pmm.State)

  /** A slot of a page that the heap owns. */
  predicate InHeap(h: Heap, b: Block) {
    b.Ok() && b.frame in h.owner && h.owner[b.frame] == b.cls
  }

  predicate NoDuplicates(s: seq<Block>) {
    forall p, q :: 0 <= p < q < |s| ==> s[p] != s[q]
  }

  ghost predicate ChainsOk(h: Heap) {
    && |h.chains| == NUM_CACHES
    && (forall c :: 0 <= c < NUM_CACHES ==> NoDuplicates(h.chains[c]))
    && (forall c, b :: 0 <= c < NUM_CACHES && b in h.chains[c] ==> b.cls == c && InHeap(h, b) && b !in h.live)
  }

  /** A live block was requested with a size that its class serves. */
  ghost predicate LiveOk(h: Heap) {
    forall b :: b in h.live ==>
      InHeap(h, b) && h.live[b] > 0 &&
      (if b.cls == LARGE then h.live[b] > 2048 else h.live[b] <= BLOCK_SIZES[b.cls])
  }

  /** Every slot of every page is live or in its chain. */
  ghost predicate Complete(h: Heap)
    requires |h.chains| == NUM_CACHES
  {
    forall b :: InHeap(h, b) ==> b in h.live || (b.cls < NUM_CACHES && b in h.chains[b.cls])
  }

  ghost predicate Inv(h: Heap) {
    && ChainsOk(h)
    && LiveOk(h)
    && Complete(h)
    && (forall f :: f in h.owner ==> 0 < f < FRAMES && h.owner[f] <= LARGE)
  }

  /** Slots 0..n of a page in the order that cache_grow leaves them: the last first. */
  function Slots(f: nat, cls: nat, n: nat): (s: seq<Block>)
    ensures |s| == n
    ensures forall k :: 0 <= k < n ==> s[k] == Block(f, cls, n - 1 - k)
  {
    if n == 0 then [] else [Block(f, cls, n - 1)] + Slots(f, cls, n - 1)
  }

  function AddPage(h: Heap, cls: nat, f: nat): Heap
    requires |h.chains| == NUM_CACHES && cls < NUM_CACHES
  {
    h.(chains := h.chains[cls := Slots(f, cls, PerPage(cls)) + h.chains[cls]], owner := h.owner[f := cls])
  }

  /** cache_grow */
  function Grow(s: System, cls: nat): (s': System)
    requires |s.heap.chains| == NUM_CACHES && cls < NUM_CACHES
    ensures |s'.heap.chains| == NUM_CACHES
  {
    var (frames, addr) := Pmm.Alloc(s.frames);
    System(if addr == 0 then s.heap else AddPage(s.heap, cls, addr / 4096), frames)
  }

  /** The first class whose blocks hold the size. */
  function ClassFor(size: nat, from: nat): (c: nat)
    requires from < NUM_CACHES && size <= 2048
    ensures from <= c < NUM_CACHES && BLOCK_SIZES[c] >= size
    ensures forall d :: from <= d < c ==> BLOCK_SIZES[d] < size
    decreases NUM_CACHES - from
  {
    if BLOCK_SIZES[from] >= size then from else ClassFor(size, from + 1)
  }

  datatype Result = Null | Served(block: Block)

  /** kmalloc */
  function Malloc(s: System, size: nat): (r: (System, Result))
    requires |s.heap.chains| == NUM_CACHES
    ensures |r.0.heap.chains| == NUM_CACHES
  {
    var h := s.heap;
    if size == 0 then
      (s, Null)
    else if size > 2048 then
      var (frames, addr) := Pmm.Alloc(s.frames);
      if addr == 0 then (System(h, frames), Null)
      else
        var b := Block(addr / 4096, LARGE, 0);
        (System(h.(live := h.live[b := size], owner := h.owner[addr / 4096 := LARGE]), frames), Served(b))
    else
      var c := ClassFor(size, 0);
      var s1 := if h.chains[c] == [] then Grow(s, c) else s;
      var chain := s1.heap.chains[c];
      if chain == [] then (s1, Null)
      else (s1.(heap := Pop(s1.heap, c, size)), Served(chain[0]))
  }

  function Pop(h: Heap, c: nat, size: nat): Heap
    requires |h.chains| == NUM_CACHES && c < NUM_CACHES && h.chains[c] != []
  {
    h.(chains := h.chains[c := h.chains[c][1..]], live := h.live[h.chains[c][0] := size])
  }

  /** kfree of a live block */
  function Release(s: System, b: Block): (s': System)
    requires |s.heap.chains| == NUM_CACHES && b.cls <= LARGE
    ensures |s'.heap.chains| == NUM_CACHES
  {
    var h := s.heap.(live := s.heap.live - {b});
    if b.cls == LARGE then
      System(h.(owner := h.owner - {b.frame}), Pmm.Free(s.frames, b.frame * 4096))
    else
      s.(heap := h.(chains := h.chains[b.cls := [b] + h.chains[b.cls]]))
  }

  /** The heap owns used frames only, and together with the frames that were taken
      before kmalloc_init they are all the used frames. */
  ghost predicate Accounted(s: System, reserved: set<nat>) {
    && 0 in reserved
    && s.frames.used == reserved + s.heap.owner.Keys
    && reserved !! s.heap.owner.Keys
  }

  ghost predicate Good(s: System, reserved: set<nat>) {
    Inv(s.heap) && Accounted(s, reserved)
  }

  lemma AllocatedFrame(s: System, reserved: set<nat>)
    requires Good(s, reserved)
    ensures var (frames, addr) := Pmm.Alloc(s.frames);
      if addr == 0 then frames == s.frames
      else
        && addr % 4096 == 0 && 0 < addr / 4096 < FRAMES
        && addr / 4096 !in s.heap.owner && addr / 4096 !in reserved
        && frames.used == s.frames.used + {addr / 4096}
  {
    Pmm.AllocIsFirstFit(s.frames);
  }

  lemma SlotsCover(f: nat, cls: nat, b: Block)
    requires cls < NUM_CACHES && 0 < f < FRAMES
    ensures b in Slots(f, cls, PerPage(cls)) <==> b.Ok() && b.frame == f && b.cls == cls
    ensures NoDuplicates(Slots(f, cls, PerPage(cls)))
  {
    hide RealSize, PerPage;
    var slots := Slots(f, cls, PerPage(cls));
    if b.Ok() && b.frame == f && b.cls == cls {
      assert b == slots[PerPage(cls) - 1 - b.idx];
    }
  }

  lemma AddPageInv(h: Heap, cls: nat, f: nat)
    requires Inv(h) && cls < NUM_CACHES && 0 < f < FRAMES && f !in h.owner
    ensures Inv(AddPage(h, cls, f))
  {
    hide RealSize, PerPage, Slots;
    var h' := AddPage(h, cls, f);
    var slots := Slots(f, cls, PerPage(cls));
    forall b
      ensures b in slots <==> b.Ok() && b.frame == f && b.cls == cls
      ensures NoDuplicates(slots)
      ensures InHeap(h', b) <==> InHeap(h, b) || b in slots
      ensures b in slots ==> b !in h.live
    {
      SlotsCover(f, cls, b);
    }
    ConcatNoDuplicates(slots, h.chains[cls]);
    assert ChainsOk(h');
    assert LiveOk(h');
  }

  lemma ConcatNoDuplicates(s: seq<Block>, t: seq<Block>)
    requires NoDuplicates(s) && NoDuplicates(t)
    requires forall b :: b in s ==> b !in t
    ensures NoDuplicates(s + t)
  {
    forall p, q | 0 <= p < q < |s + t|
      ensures (s + t)[p] != (s + t)[q]
    {
      if p < |s| <= q {
        assert s[p] in s && t[q - |s|] in t;
      }
    }
  }

  lemma PopInv(h: Heap, c: nat, size: nat)
    requires Inv(h) && c < NUM_CACHES && h.chains[c] != [] && 0 < size <= BLOCK_SIZES[c]
    ensures Inv(Pop(h, c, size))
  {
    var chain := h.chains[c];
    var h' := Pop(h, c, size);
    assert chain[0] in chain;
    forall b | InHeap(h', b)
      ensures b in h'.live || (b.cls < NUM_CACHES && b in h'.chains[b.cls])
    {
      assert InHeap(h, b);
      if b in chain && b != chain[0] {
        var k :| 0 <= k < |chain| && chain[k] == b;
        assert chain[1..][k - 1] == b;
      }
    }
  }

  lemma GrowGood(s: System, cls: nat, reserved: set<nat>)
    requires Good(s, reserved) && cls < NUM_CACHES
    ensures Good(Grow(s, cls), reserved)
  {
    hide Pmm.Alloc;
    AllocatedFrame(s, reserved);
    var addr := Pmm.Alloc(s.frames).1;
    if addr != 0 {
      AddPageInv(s.heap, cls, addr / 4096);
    }
  }

  lemma AddLargeInv(h: Heap, f: nat, size: nat)
    requires Inv(h) && 0 < f < FRAMES && f !in h.owner && size > 2048
    ensures Inv(h.(live := h.live[Block(f, LARGE, 0) := size], owner := h.owner[f := LARGE]))
  {
    var h' := h.(live := h.live[Block(f, LARGE, 0) := size], owner := h.owner[f := LARGE]);
    assert PerPage(LARGE) == 1;
    hide RealSize, PerPage;
    forall b
      ensures InHeap(h', b) <==> InHeap(h, b) || b == Block(f, LARGE, 0)
    {
    }
    hide InHeap;
    assert Block(f, LARGE, 0) !in h.live;
  }

  lemma MallocGood(s: System, size: nat, reserved: set<nat>)
    requires Good(s, reserved)
    ensures Good(Malloc(s, size).0, reserved)
  {
    assert |s.heap.chains| == NUM_CACHES;
    hide Pmm.Alloc, Inv, RealSize, PerPage;
    if 0 < size <= 2048 {
      var c := ClassFor(size, 0);
      GrowGood(s, c, reserved);
      var s1 := if s.heap.chains[c] == [] then Grow(s, c) else s;
      if s1.heap.chains[c] != [] {
        PopInv(s1.heap, c, size);
      }
    } else if size > 2048 {
      AllocatedFrame(s, reserved);
      var addr := Pmm.Alloc(s.frames).1;
      if addr != 0 {
        AddLargeInv(s.heap, addr / 4096, size);
      }
    }
  }

  lemma ReleaseLargeInv(h: Heap, b: Block)
    requires Inv(h) && b in h.live && b.cls == LARGE
    ensures Inv(h.(live := h.live - {b}, owner := h.owner - {b.frame}))
  {
    var h' := h.(live := h.live - {b}, owner := h.owner - {b.frame});
    assert PerPage(LARGE) == 1;
    hide RealSize, PerPage;
    forall x | InHeap(h, x)
      ensures x.frame == b.frame ==> x == b
      ensures x.frame != b.frame ==> InHeap(h', x)
    {
    }
    forall x | InHeap(h', x)
      ensures InHeap(h, x) && x != b
    {
    }
  }

  lemma ReleaseSmallInv(h: Heap, b: Block)
    requires Inv(h) && b in h.live && b.cls < NUM_CACHES
    ensures Inv(h.(live := h.live - {b}, chains := h.chains[b.cls := [b] + h.chains[b.cls]]))
  {
    hide RealSize, PerPage;
    var h' := h.(live := h.live - {b}, chains := h.chains[b.cls := [b] + h.chains[b.cls]]);
    forall x
      ensures InHeap(h', x) == InHeap(h, x)
    {
    }
  }

  lemma ReleaseGood(s: System, b: Block, reserved: set<nat>)
    requires Good(s, reserved) && b in s.heap.live
    ensures Good(Release(s, b), reserved)
  {
    hide RealSize, PerPage;
    assert b.cls < NUM_CACHES || b.cls == LARGE;
    assert b.frame in s.heap.owner;
    if b.cls == LARGE {
      ReleaseLargeInv(s.heap, b);
    } else {
      ReleaseSmallInv(s.heap, b);
    }
  }
}
