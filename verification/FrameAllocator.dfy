/** The physical frame allocator of src/kernel/pmm.cpp: a bitmap of 32-bit words
    that starts at the end of the kernel image, one bit for each 4 KiB frame. */
module FrameBits {
  import opened Machine

  /** total_pages: the frames that an allocation may scan. */
  const TOTAL_PAGES: nat := 0xFFFF_FFFF / 4096
  /** bitmap_size, which is one byte short of the storage that holds frame TOTAL_PAGES - 1. */
  const BITMAP_BYTES: nat := TOTAL_PAGES / 8
  /** Frames that have an address below 4 GiB, and the bitmap words that hold their bits. */
  const FRAMES: nat := 0x10_0000
  const WORDS: nat := FRAMES / 32

  function Mask(k: nat): bv32
    requires k < 32
  {
    1 << k
  }

  function And(w: bv32, m: bv32): bv32 {
    w & m
  }

  function Or(w: bv32, m: bv32): bv32 {
    w | m
  }

  function AndNot(w: bv32, m: bv32): bv32 {
    w & !m
  }

  predicate Bit(w: bv32, k: nat)
    requires k < 32
  {
    And(w, Mask(k)) != 0
  }

  lemma LowMaskDoubles(i: nat)
    requires i < 16
    ensures Mask(i + 1) == Mask(i) << 1
  {
  }

  lemma HighMaskDoubles(i: nat)
    requires 16 <= i < 31
    ensures Mask(i + 1) == Mask(i) << 1
  {
  }

  lemma MaskDoubles(i: nat)
    requires i < 31
    ensures Mask(i + 1) == Mask(i) << 1
  {
    if i < 16 {
      LowMaskDoubles(i);
    } else {
      HighMaskDoubles(i);
    }
  }

  lemma MaskNonzero(i: nat)
    requires i < 32
    ensures Mask(i) != 0
  {
  }

  lemma ShiftedIsEven(m: bv32)
    ensures And(1, m << 1) == 0
  {
  }

  lemma ShiftKeepsDisjoint(m: bv32, n: bv32)
    requires And(m, n) == 0
    ensures And(m << 1, n << 1) == 0
  {
  }

  lemma AndCommutes(m: bv32, n: bv32)
    ensures And(m, n) == And(n, m)
  {
  }

  lemma MaskZero()
    ensures Mask(0) == 1
  {
  }

  lemma {:induction false} MasksOrdered(i: nat, j: nat)
    requires i < j < 32
    ensures And(Mask(i), Mask(j)) == 0
  {
    hide Mask, And;
    MaskDoubles(j - 1);
    if i == 0 {
      MaskZero();
      ShiftedIsEven(Mask(j - 1));
    } else {
      MaskDoubles(i - 1);
      MasksOrdered(i - 1, j - 1);
      ShiftKeepsDisjoint(Mask(i - 1), Mask(j - 1));
    }
  }

  lemma MasksDisjoint(i: nat, j: nat)
    requires i < 32 && j < 32 && i != j
    ensures And(Mask(i), Mask(j)) == 0
  {
    hide Mask, And;
    if i < j {
      MasksOrdered(i, j);
    } else {
      MasksOrdered(j, i);
      AndCommutes(Mask(i), Mask(j));
    }
  }

  lemma OrKeeps(w: bv32, m: bv32, n: bv32)
    requires And(m, n) == 0
    ensures And(Or(w, m), n) == And(w, n)
  {
  }

  lemma AndNotKeeps(w: bv32, m: bv32, n: bv32)
    requires And(m, n) == 0
    ensures And(AndNot(w, m), n) == And(w, n)
  {
  }

  lemma OrSets(w: bv32, m: bv32)
    ensures And(Or(w, m), m) == m
  {
  }

  lemma AndNotClears(w: bv32, m: bv32)
    ensures And(AndNot(w, m), m) == 0
  {
  }

  lemma AndNotOfClear(w: bv32, m: bv32)
    requires And(w, m) == 0
    ensures AndNot(w, m) == w
  {
  }

  lemma ZeroWordClear(m: bv32)
    ensures And(0, m) == 0
  {
  }

  /** Setting bit i of a word sets bit i and changes no other bit. */
  lemma WordSet(w: bv32, i: nat, j: nat)
    requires i < 32 && j < 32
    ensures Bit(Or(w, Mask(i)), j) <==> Bit(w, j) || i == j
  {
    hide Mask, And, Or;
    MaskNonzero(i);
    if i == j {
      OrSets(w, Mask(i));
    } else {
      MasksDisjoint(i, j);
      OrKeeps(w, Mask(i), Mask(j));
    }
  }

  /** Clearing bit i of a word clears bit i and changes no other bit. */
  lemma WordClear(w: bv32, i: nat, j: nat)
    requires i < 32 && j < 32
    ensures Bit(AndNot(w, Mask(i)), j) <==> Bit(w, j) && i != j
  {
    hide Mask, And, AndNot;
    if i == j {
      AndNotClears(w, Mask(i));
    } else {
      MasksDisjoint(i, j);
      AndNotKeeps(w, Mask(i), Mask(j));
    }
  }

  /** bitmap_test on a bitmap given as a sequence of words. */
  predicate Marked(words: seq<bv32>, f: nat)
    requires f < 32 * |words|
  {
    Bit(words[f / 32], f % 32)
  }

  /** The set of frames whose bit is set. */
  ghost function Frames(words: seq<bv32>): (s: set<nat>)
    requires |words| >= WORDS
    ensures forall f :: f in s ==> f < FRAMES
  {
    set f: nat | f < FRAMES && Marked(words, f)
  }

  function SetBit(words: seq<bv32>, f: nat): seq<bv32>
    requires f < 32 * |words|
  {
    words[f / 32 := Or(words[f / 32], Mask(f % 32))]
  }

  function ClearBit(words: seq<bv32>, f: nat): seq<bv32>
    requires f < 32 * |words|
  {
    words[f / 32 := AndNot(words[f / 32], Mask(f % 32))]
  }

  lemma SetBitMarks(words: seq<bv32>, f: nat, g: nat)
    requires f < 32 * |words| && g < 32 * |words|
    ensures Marked(SetBit(words, f), g) <==> Marked(words, g) || f == g
  {
    hide Bit, Mask, Or;
    if f / 32 == g / 32 {
      WordSet(words[f / 32], f % 32, g % 32);
    }
  }

  lemma ClearBitUnmarks(words: seq<bv32>, f: nat, g: nat)
    requires f < 32 * |words| && g < 32 * |words|
    ensures Marked(ClearBit(words, f), g) <==> Marked(words, g) && f != g
  {
    hide Bit, Mask, AndNot;
    if f / 32 == g / 32 {
      WordClear(words[f / 32], f % 32, g % 32);
    }
  }

  /** The bit operations on words are insertion into and removal from the set of frames. */
  lemma WordBitmapIsSet(words: seq<bv32>, f: nat)
    requires |words| >= WORDS && f < FRAMES
    ensures Frames(SetBit(words, f)) == Frames(words) + {f}
    ensures Frames(ClearBit(words, f)) == Frames(words) - {f}
    ensures Marked(words, f) <==> f in Frames(words)
  {
    hide Bit, Mask, AndNot, Or, Marked;
    forall g: nat | g < FRAMES
      ensures Marked(SetBit(words, f), g) <==> Marked(words, g) || f == g
      ensures Marked(ClearBit(words, f), g) <==> Marked(words, g) && f != g
    {
      SetBitMarks(words, f, g);
      ClearBitUnmarks(words, f, g);
    }
  }

  lemma ClearingClearBit(words: seq<bv32>, f: nat)
    requires f < 32 * |words| && !Marked(words, f)
    ensures ClearBit(words, f) == words
  {
    hide Mask, AndNot, And;
    AndNotOfClear(words[f / 32], Mask(f % 32));
  }
}

/** What the allocator does, on the set of used frames. */
module FrameSpec {
  import opened FrameBits
  import opened Machine

  datatype State = State(used: set<nat>, free: nat, early: bool)

  datatype Op = AllocPage | FreePage(addr: nat) | SetEarly(on: bool)

  /** The end of the scan: the first 4 MiB in early mode. */
  function Limit(early: bool): nat {
    if early then 0x40_0000 / 4096 else TOTAL_PAGES
  }

  function Up(n: nat): nat {
    (n + 1) % 0x1_0000_0000
  }

  function Down(n: nat): nat {
    (n + 0xFFFF_FFFF) % 0x1_0000_0000
  }

  lemma UpCounts(n: nat)
    ensures Up(n % 0x1_0000_0000) == (n + 1) % 0x1_0000_0000
  {
  }

  lemma DownCounts(n: int)
    ensures Down(n % 0x1_0000_0000) == (n - 1) % 0x1_0000_0000
  {
  }

  /** The lowest frame in [from, end) that is not used, or end. */
  function FirstClear(used: set<nat>, from: nat, end: nat): (f: nat)
    requires from <= end
    ensures from <= f <= end
    ensures forall g :: from <= g < f ==> g in used
    ensures f < end ==> f !in used
    decreases end - from
  {
    if from == end || from !in used then from else FirstClear(used, from + 1, end)
  }

  function Scan(s: State): (f: nat)
    ensures f <= Limit(s.early)
  {
    FirstClear(s.used, 0, Limit(s.early))
  }

  /** The state after an allocation, and the address it returns (0 for null). */
  function Alloc(s: State): (r: (State, nat)) {
    var f := Scan(s);
    if f < Limit(s.early) then
      (s.(used := s.used + {f}, free := Down(s.free)), f * 4096)
    else
      (s, 0)
  }

  function Free(s: State, addr: nat): State {
    var f := addr / 4096;
    if f in s.used then s.(used := s.used - {f}, free := Up(s.free)) else s
  }

  function Step(s: State, op: Op): State {
    match op
    case AllocPage => Alloc(s).0
    case FreePage(addr) => Free(s, addr)
    case SetEarly(on) => s.(early := on)
  }

  function Run(s: State, ops: seq<Op>): State
    decreases |ops|
  {
    if ops == [] then s else Run(Step(s, ops[0]), ops[1..])
  }

  /** An allocation returns the lowest clear frame in range, the first 4 MiB in early
      mode and all below the last page of 4 GiB otherwise; with frame 0 used it
      returns null exactly when every frame in range is used. */
  lemma AllocIsFirstFit(s: State)
    requires 0 in s.used
    ensures var (s', addr) := Alloc(s);
      if addr == 0 then
        s' == s && forall f: nat :: f < (if s.early then 0x400 else 0xF_FFFF) ==> f in s.used
      else
        && addr % 4096 == 0
        && addr < (if s.early then 0x40_0000 else 0xFFFF_F000)
        && addr / 4096 !in s.used
        && (forall f: nat :: f < addr / 4096 ==> f in s.used)
        && s'.used == s.used + {addr / 4096}
        && s'.free == (s.free + 0xFFFF_FFFF) % 0x1_0000_0000 && s'.early == s.early
  {
    var f := Scan(s);
    assert f < Limit(s.early) ==> f != 0;
  }

  /** The conserved quantity: the free counter plus the number of set bits, modulo 2^32. */
  function Total(s: State): nat {
    (s.free + |s.used|) % 0x1_0000_0000
  }

  lemma OneMoreUsed(s: State, f: nat)
    requires f !in s.used
    ensures Total(s.(used := s.used + {f}, free := Down(s.free))) == Total(s)
  {
    assert |s.used + {f}| == |s.used| + 1;
    Balanced(s.free, |s.used|);
  }

  lemma OneMoreFree(s: State, f: nat)
    requires f in s.used
    ensures Total(s.(used := s.used - {f}, free := Up(s.free))) == Total(s)
  {
    assert |s.used - {f}| == |s.used| - 1;
    Balanced(s.free, |s.used| - 1);
  }

  lemma Balanced(free: nat, used: nat)
    ensures (Down(free) + (used + 1)) % 0x1_0000_0000 == (free + used) % 0x1_0000_0000
    ensures (Up(free) + used) % 0x1_0000_0000 == (free + (used + 1)) % 0x1_0000_0000
  {
    AddModulo(free + 0xFFFF_FFFF, used + 1);
    AddModulo(free + 1, used);
    OneTurn(free + used);
  }

  lemma AddModulo(x: nat, y: nat)
    ensures (x % 0x1_0000_0000 + y) % 0x1_0000_0000 == (x + y) % 0x1_0000_0000
  {
    var q := x / 0x1_0000_0000;
    assert x + y == q * 0x1_0000_0000 + (x % 0x1_0000_0000 + y);
  }

  lemma OneTurn(x: nat)
    ensures (x + 0x1_0000_0000) % 0x1_0000_0000 == x % 0x1_0000_0000
  {
  }

  lemma StepConserves(s: State, op: Op)
    requires s.free < TWO32
    ensures Step(s, op).free < TWO32
    ensures Total(Step(s, op)) == Total(s)
  {
    match op
    case AllocPage =>
      var f := Scan(s);
      if f < Limit(s.early) {
        OneMoreUsed(s, f);
      }
    case FreePage(addr) =>
      if addr / 4096 in s.used {
        OneMoreFree(s, addr / 4096);
      }
    case SetEarly(on) =>
  }

  /** Over every run, double frees included, the counter and the set bits keep their sum. */
  lemma {:induction false} RunConserves(s: State, ops: seq<Op>)
    requires s.free < TWO32
    ensures Run(s, ops).free < TWO32
    ensures Total(Run(s, ops)) == Total(s)
    decreases |ops|
  {
    if ops != [] {
      StepConserves(s, ops[0]);
      RunConserves(Step(s, ops[0]), ops[1..]);
    }
  }

  /** A run whose live frames are known: those returned by Alloc and not yet freed. */
  datatype Tracked = Tracked(state: State, live: set<nat>)

  function Follow(t: Tracked, op: Op): Tracked {
    var live := match op {
      case AllocPage =>
        var addr := Alloc(t.state).1;
        if addr == 0 then t.live else t.live + {addr / 4096}
      case FreePage(addr) => t.live - {addr / 4096}
      case SetEarly(_) => t.live
    };
    Tracked(Step(t.state, op), live)
  }

  function FollowAll(t: Tracked, ops: seq<Op>): Tracked
    decreases |ops|
  {
    if ops == [] then t else FollowAll(Follow(t, ops[0]), ops[1..])
  }

  /** Only live frames are freed. */
  predicate Legal(t: Tracked, ops: seq<Op>)
    decreases |ops|
  {
    ops == [] ||
    ((ops[0].FreePage? ==> ops[0].addr / 4096 in t.live) && Legal(Follow(t, ops[0]), ops[1..]))
  }

  ghost predicate Accounted(t: Tracked, reserved: set<nat>) {
    && 0 in reserved
    && t.state.used == reserved + t.live
    && reserved !! t.live
  }

  /** In every legal run the used frames are exactly the reserved and the live
      ones, and no reserved frame is ever handed out. */
  lemma {:induction false} LegalRunAccounts(t: Tracked, ops: seq<Op>, reserved: set<nat>)
    requires Accounted(t, reserved) && Legal(t, ops)
    ensures Accounted(FollowAll(t, ops), reserved)
    decreases |ops|
  {
    if ops != [] {
      AllocIsFirstFit(t.state);
      LegalRunAccounts(Follow(t, ops[0]), ops[1..], reserved);
    }
  }

  /** In particular no legal run that starts without live frames hands out a frame
      up to k, if those are all used at the start: frame 0, the kernel and the bitmap. */
  lemma KernelFramesNeverAllocated(s: State, ops: seq<Op>, k: nat)
    requires forall f: nat :: f <= k ==> f in s.used
    requires Legal(Tracked(s, {}), ops)
    ensures var t := FollowAll(Tracked(s, {}), ops);
      && (forall f :: f in t.live ==> f > k)
      && (Alloc(t.state).1 == 0 || Alloc(t.state).1 / 4096 > k)
  {
    LegalRunAccounts(Tracked(s, {}), ops, s.used);
    AllocIsFirstFit(FollowAll(Tracked(s, {}), ops).state);
  }

  /** After any legal run an allocation yields null, or a frame that is neither
      reserved nor live. */
  lemma AllocationsAreFresh(t: Tracked, ops: seq<Op>, reserved: set<nat>)
    requires Accounted(t, reserved) && Legal(t, ops)
    ensures var t' := FollowAll(t, ops);
      var addr := Alloc(t'.state).1;
      addr != 0 ==> addr / 4096 !in reserved && addr / 4096 !in t'.live
  {
    LegalRunAccounts(t, ops, reserved);
    AllocIsFirstFit(FollowAll(t, ops).state);
  }
}

/** What pmm_init computes from the memory map. Its mask ~(PAGE_SIZE - 1) is a
    32-bit value that zero-extends, so both ends lose their upper 32 bits. */
module FrameInit {
  import opened Machine
  import opened MemoryMap
  import opened FrameBits

  /** Words that the region loop can read: it can run past the bitmap. */
  const WINDOW: nat := 2 * WORDS

  function Mask32(x: nat): (y: nat)
    ensures y < TWO32 && y % 4096 == 0
  {
    PageDown(x % 0x1_0000_0000)
  }

  function First(r: Region): (p: nat)
    ensures p < FRAMES
  {
    Mask32(U64(r.addr + 4095)) / 4096
  }

  function End(r: Region): (p: nat)
    ensures First(r) <= p < 2 * FRAMES
  {
    var alignedBase := Mask32(U64(r.addr + 4095));
    var alignedLen := Mask32(U64(r.len - (alignedBase - r.addr)));
    (alignedBase + alignedLen) / 4096
  }

  /** How many frames of [from, end) have a clear bit. */
  function ClearCount(words: seq<bv32>, from: nat, end: nat): nat
    requires from <= end <= 32 * |words|
    decreases end
  {
    if from == end then 0
    else ClearCount(words, from, end - 1) + (if Marked(words, end - 1) then 0 else 1)
  }

  /** The pages that the region loop counts as free. */
  function Counted(words: seq<bv32>, regions: Map): nat
    requires |words| >= WINDOW
    decreases |regions|
  {
    if regions == [] then 0
    else Counted(words, regions[..|regions| - 1]) + CountOf(words, regions[|regions| - 1])
  }

  /** Those of one region. */
  function CountOf(words: seq<bv32>, r: Region): nat
    requires |words| >= WINDOW
  {
    if r.kind == RAM then ClearCount(words, First(r), End(r)) else 0
  }

  lemma CountedAppend(words: seq<bv32>, regions: Map, r: Region)
    requires |words| >= WINDOW && r.Fits()
    ensures Counted(words, regions + [r]) == Counted(words, regions) + CountOf(words, r)
  {
    hide CountOf;
    assert (regions + [r])[..|regions|] == regions;
  }

  /** The bitmap after its first loop, which leaves the last word alone. */
  function Zeroed(words: seq<bv32>): (z: seq<bv32>)
    requires |words| >= WORDS
    ensures |z| == |words|
    ensures forall f: nat :: f < 32 * (TOTAL_PAGES / 32) ==> !Marked(z, f)
    ensures forall f: nat :: 32 * (TOTAL_PAGES / 32) <= f < 32 * |words| ==> Marked(z, f) == Marked(words, f)
  {
    ZeroWordsClear();
    seq(TOTAL_PAGES / 32, _ => 0) + words[TOTAL_PAGES / 32..]
  }

  lemma ZeroWordsClear()
    ensures forall k :: 0 <= k < 32 ==> !Bit(0, k)
  {
    forall k | 0 <= k < 32
      ensures !Bit(0, k)
    {
      ZeroWordClear(Mask(k));
    }
  }

  /** How far the first page boundary at or after addr is. */
  function Gap(addr: nat): (g: nat)
    ensures g < 4096 && (addr + g) % 4096 == 0
  {
    PageDown(addr + 4095) - addr
  }

  /** The pages that the loop walks over for a region, from its length alone. */
  function LoopPages(r: Region): (n: nat)
    ensures n < FRAMES
  {
    (r.len - Gap(r.addr)) % 0x1_0000_0000 / 4096
  }

  lemma SameResidue(x: int, y: int, k: int)
    requires x == y + k * 0x1_0000_0000
    ensures x % 0x1_0000_0000 == y % 0x1_0000_0000
  {
  }

  /** The truncation to 64 bits is lost in that to 32. */
  lemma Mask32OfU64(x: int)
    ensures Mask32(U64(x)) == PageDown(x % 0x1_0000_0000)
  {
    SameResidue(x, U64(x), x / 0x1_0000_0000_0000_0000 * 0x1_0000_0000);
  }

  lemma PageNumber(y: nat)
    ensures PageDown(y % 0x1_0000_0000) / 4096 == y / 4096 % 0x10_0000
    ensures PageDown(y) == PageDown(y % 0x1_0000_0000) + y / 0x1_0000_0000 * 0x1_0000_0000
  {
    var high, low := y / 0x1_0000_0000, y % 0x1_0000_0000;
    PageParts(low);
    Quotient(y, high * 0x10_0000 + low / 4096, low % 4096, 4096);
    Quotient(high * 0x10_0000 + low / 4096, high, low / 4096, 0x10_0000);
  }

  lemma PageParts(low: nat)
    requires low < TWO32
    ensures PageDown(low) / 4096 == low / 4096 < 0x10_0000 && low == low / 4096 * 4096 + low % 4096
  {
    Quotient(PageDown(low), low / 4096, 0, 4096);
  }

  lemma PagesAdd(base: nat, n: nat)
    requires base % 4096 == 0
    ensures (base + PageDown(n)) / 4096 == base / 4096 + n / 4096
  {
    Quotient(base + PageDown(n), base / 4096 + n / 4096, 0, 4096);
  }

  /** The boundary after addr and the residue of what is left of the length. */
  lemma BaseAndLength(r: Region)
    ensures var base := Mask32(U64(r.addr + 4095));
      && base / 4096 == (r.addr + 4095) / 4096 % 0x10_0000
      && Mask32(U64(r.len - (base - r.addr))) == PageDown((r.len - Gap(r.addr)) % 0x1_0000_0000)
  {
    var base := Mask32(U64(r.addr + 4095));
    Mask32OfU64(r.addr + 4095);
    Mask32OfU64(r.len - (base - r.addr));
    PageNumber(r.addr + 4095);
    var high := (r.addr + 4095) / 0x1_0000_0000;
    hide Mask32, U64;
    assert Gap(r.addr) == base + high * 0x1_0000_0000 - r.addr;
    hide Gap, PageDown;
    SameResidue(r.len - (base - r.addr), r.len - Gap(r.addr), high);
  }

  lemma BoundaryPage(addr: nat)
    ensures (addr + Gap(addr)) / 4096 == (addr + 4095) / 4096
  {
    Quotient(addr + Gap(addr), (addr + 4095) / 4096, 0, 4096);
  }

  /** For every region the loop walks LoopPages(r) pages, from the first boundary
      modulo 4 GiB on. */
  lemma LoopBounds(r: Region)
    ensures First(r) == (r.addr + Gap(r.addr)) / 4096 % FRAMES
    ensures End(r) == First(r) + LoopPages(r)
  {
    hide Mask32, U64, PageDown, Gap;
    BaseAndLength(r);
    BoundaryPage(r.addr);
    PagesAdd(Mask32(U64(r.addr + 4095)), (r.len - Gap(r.addr)) % 0x1_0000_0000);
  }

  /** Page p lies wholly inside the region. */
  predicate Holds(r: Region, p: nat) {
    r.addr <= p * 4096 && (p + 1) * 4096 <= r.addr + r.len
  }

  /** The guard under which the loop and the region agree. */
  predicate CountsRight(r: Region) {
    var gap := Gap(r.addr);
    gap <= r.len && (r.len - gap < 4096 || (r.addr + 4095 < TWO32 && r.len - gap < TWO32))
  }

  /** The pages inside a region are those from its first boundary on. */
  lemma PagesInside(r: Region, p: nat)
    ensures Holds(r, p) <==>
      (r.addr + Gap(r.addr)) / 4096 <= p && (p + 1) * 4096 <= r.addr + r.len
  {
  }

  /** The loop bounds enclose exactly the pages that lie wholly inside the region if
      and only if the region reaches its first page boundary and either holds no
      page or starts and stays below 4 GiB. */
  lemma RegionExactly(r: Region)
    ensures (forall p: nat :: First(r) <= p < End(r) <==> Holds(r, p)) <==> CountsRight(r)
  {
    hide First, End, Holds, CountsRight, Gap;
    if CountsRight(r) {
      forall p: nat
        ensures First(r) <= p < End(r) <==> Holds(r, p)
      {
        RegionCounted(r, p);
      }
    } else {
      var gap, first := Gap(r.addr), (r.addr + Gap(r.addr)) / 4096;
      RegionMissed(r, if r.len - gap >= TWO32 then first + (r.len - gap) / 4096 - 1
                      else if r.len < gap then First(r) else first);
    }
  }

  lemma RegionCounted(r: Region, p: nat)
    requires CountsRight(r)
    ensures First(r) <= p < End(r) <==> Holds(r, p)
  {
    hide First, End, Holds, Gap;
    LoopBounds(r);
    PagesInside(r, p);
    var first := (r.addr + Gap(r.addr)) / 4096;
    assert r.addr + Gap(r.addr) == 4096 * first;
  }

  /** A page on which loop and region disagree when the guard fails. */
  lemma RegionMissed(r: Region, p: nat)
    requires !CountsRight(r)
    requires var gap := Gap(r.addr);
      p == if r.len - gap >= TWO32 then (r.addr + gap) / 4096 + (r.len - gap) / 4096 - 1
           else if r.len < gap then First(r) else (r.addr + gap) / 4096
    ensures First(r) <= p < End(r) <==> !Holds(r, p)
  {
    hide First, End, Holds, Gap;
    LoopBounds(r);
    PagesInside(r, p);
    var first := (r.addr + Gap(r.addr)) / 4096;
    assert r.addr + Gap(r.addr) == 4096 * first;
  }

  /** The loop counts 2^20 - 1 pages for 100 bytes of RAM that hold none. */
  lemma TinyRegion()
    ensures var r := Region(1, 100, 1);
      First(r) == 1 && End(r) == 0x10_0000 && forall p: nat :: !Holds(r, p)
  {
    hide First, End;
    LoopBounds(Region(1, 100, RAM));
    assert Gap(1) == 4095;
    assert (100 - 4095) % 0x1_0000_0000 == 0xFFFF_F065;
  }

  lemma {:induction false} AllClear(words: seq<bv32>, from: nat, end: nat)
    requires from <= end <= 32 * |words|
    requires forall f: nat :: from <= f < end ==> !Marked(words, f)
    ensures ClearCount(words, from, end) == end - from
    decreases end
  {
    hide Marked;
    if from < end {
      AllClear(words, from, end - 1);
    }
  }

  lemma {:induction false} AllSet(words: seq<bv32>, from: nat, end: nat)
    requires from <= end <= 32 * |words|
    requires forall f: nat :: from <= f < end ==> Marked(words, f)
    ensures ClearCount(words, from, end) == 0
    decreases end
  {
    hide Marked;
    if from < end {
      AllSet(words, from, end - 1);
    }
  }

  lemma {:induction false} ClearBound(words: seq<bv32>, from: nat, end: nat)
    requires from <= end <= 32 * |words|
    ensures ClearCount(words, from, end) <= end - from
    decreases end
  {
    hide Marked;
    if from < end {
      ClearBound(words, from, end - 1);
    }
  }

  lemma {:induction false} ClearSplit(words: seq<bv32>, from: nat, mid: nat, end: nat)
    requires from <= mid <= end <= 32 * |words|
    ensures ClearCount(words, from, end) == ClearCount(words, from, mid) + ClearCount(words, mid, end)
    decreases end
  {
    hide Marked;
    if mid < end {
      ClearSplit(words, from, mid, end - 1);
    }
  }

  lemma {:induction false} ClearSame(words: seq<bv32>, words': seq<bv32>, from: nat, end: nat)
    requires from <= end <= 32 * |words| && |words'| == |words|
    requires forall f: nat :: from <= f < end ==> (Marked(words', f) <==> Marked(words, f))
    ensures ClearCount(words', from, end) == ClearCount(words, from, end)
    decreases end
  {
    hide Marked;
    if from < end {
      ClearSame(words, words', from, end - 1);
    }
  }

  /** The frames whose bits the first loop clears. */
  const ZEROED: nat := 32 * (TOTAL_PAGES / 32)

  function AtLeast(x: nat, low: nat): nat {
    if x < low then low else x
  }

  /** What a RAM region adds to the counter: the pages of the loop, less the bits that
      were set behind the zeroed words. Pages of an earlier region count again. */
  function Credit(words: seq<bv32>, r: Region): int
    requires |words| >= WINDOW
  {
    if r.kind != RAM then 0 else LoopPages(r) - SetBehind(words, First(r), End(r))
  }

  /** The bits of [from, end) that are set behind the zeroed words. */
  function SetBehind(words: seq<bv32>, from: nat, end: nat): (n: int)
    requires |words| >= WINDOW && from <= end <= 2 * FRAMES
    ensures end <= ZEROED ==> n == 0
  {
    var low, high := AtLeast(from, ZEROED), AtLeast(end, ZEROED);
    high - low - ClearCount(words, low, high)
  }

  function Credits(words: seq<bv32>, regions: Map): int
    requires |words| >= WINDOW
    decreases |regions|
  {
    if regions == [] then 0
    else Credits(words, regions[..|regions| - 1]) + Credit(words, regions[|regions| - 1])
  }

  lemma ZeroedClear(words: seq<bv32>, from: nat, end: nat)
    requires |words| >= WORDS && from <= end <= 32 * |words|
    ensures AtLeast(end, ZEROED) <= 32 * |words|
    ensures ClearCount(Zeroed(words), from, end) ==
      var low, high := AtLeast(from, ZEROED), AtLeast(end, ZEROED);
      (end - from) - (high - low) + ClearCount(words, low, high)
  {
    hide Marked;
    var z := Zeroed(words);
    if end <= ZEROED {
      AllClear(z, from, end);
    } else if from >= ZEROED {
      ClearSame(words, z, from, end);
    } else {
      ClearSplit(z, from, ZEROED, end);
      AllClear(z, from, ZEROED);
      ClearSame(words, z, ZEROED, end);
    }
  }

  ghost function WholePages(r: Region, n: nat): set<nat> {
    set p: nat | p < n && Holds(r, p)
  }

  /** An entry that is no RAM counts nothing. A RAM region that loop and region agree on
      and that ends below the last bitmap word counts its whole pages. */
  lemma CountsWholePages(words: seq<bv32>, r: Region)
    requires |words| >= WINDOW
    ensures r.kind != 1 ==> CountOf(words, r) == 0
    ensures r.kind == 1 && CountsRight(r) && r.addr + r.len <= 4096 * 0xF_FFE0 ==>
      CountOf(Zeroed(words), r) == |WholePages(r, FRAMES)|
  {
    if r.kind == 1 && CountsRight(r) && r.addr + r.len <= 4096 * 0xF_FFE0 {
      hide First, End, Gap, CountsRight, Marked;
      RegionExactly(r);
      LoopBelow(r);
      ClearCountIs(Zeroed(words), First(r), End(r));
      assert WholePages(r, FRAMES) == ClearFrames(Zeroed(words), First(r), End(r));
    }
  }

  lemma LoopBelow(r: Region)
    requires CountsRight(r) && r.addr + r.len <= 4096 * 0xF_FFE0
    ensures First(r) == End(r) || End(r) <= 0xF_FFE0
  {
    hide First, End, Gap;
    if First(r) != End(r) {
      RegionCounted(r, End(r) - 1);
    }
  }

  /** The frames of [from, end) that have a clear bit. */
  ghost function ClearFrames(words: seq<bv32>, from: nat, end: nat): set<nat>
    requires end <= 32 * |words|
  {
    set p: nat | from <= p < end && !Marked(words, p)
  }

  lemma {:induction false} ClearCountIs(words: seq<bv32>, from: nat, end: nat)
    requires from <= end <= 32 * |words|
    ensures ClearCount(words, from, end) == |ClearFrames(words, from, end)|
    decreases end
  {
    hide Marked;
    if from == end {
      assert ClearFrames(words, from, end) == {};
    } else {
      ClearCountIs(words, from, end - 1);
      assert ClearFrames(words, from, end) ==
        ClearFrames(words, from, end - 1) + if Marked(words, end - 1) then {} else {end - 1};
    }
  }

  /** Every region, above 4 GiB or not, adds its credit. */
  lemma {:induction false} CountedIsCredits(words: seq<bv32>, regions: Map)
    requires |words| >= WINDOW
    ensures Counted(Zeroed(words), regions) == Credits(words, regions)
    decreases |regions|
  {
    hide CountOf, Credit;
    if regions != [] {
      var n := |regions| - 1;
      CountedIsCredits(words, regions[..n]);
      CountIsCredit(words, regions[n]);
    }
  }

  lemma CountIsCredit(words: seq<bv32>, r: Region)
    requires |words| >= WINDOW
    ensures CountOf(Zeroed(words), r) == Credit(words, r)
  {
    hide First, End, LoopPages, ClearCount;
    LoopBounds(r);
    ZeroedClear(words, First(r), End(r));
  }

  /** Marking frames 0..k takes their clear bits out of the count. */
  lemma ClearAfterMark(z: seq<bv32>, words: seq<bv32>, k: nat)
    requires |words| == |z| >= WORDS && k < FRAMES
    requires forall f: nat :: f < FRAMES ==> (Marked(words, f) <==> f <= k || Marked(z, f))
    ensures ClearCount(words, 0, FRAMES) == ClearCount(z, 0, FRAMES) - ClearCount(z, 0, k + 1)
    ensures 0 <= ClearCount(words, 0, FRAMES) <= FRAMES
  {
    hide Marked, ClearCount;
    ClearSplit(z, 0, k + 1, FRAMES);
    ClearSplit(words, 0, k + 1, FRAMES);
    AllSet(words, 0, k + 1);
    ClearSame(z, words, k + 1, FRAMES);
    ClearBound(words, 0, FRAMES);
  }

  /** A 32-bit counter that was lowered once for each newly set bit is the number of
      clear bits exactly if it was before. */
  lemma CounterRight(z: seq<bv32>, words: seq<bv32>, k: nat, counted: nat)
    requires |words| == |z| >= WORDS && k < FRAMES
    requires forall f: nat :: f < FRAMES ==> (Marked(words, f) <==> f <= k || Marked(z, f))
    ensures (counted - ClearCount(z, 0, k + 1)) % 0x1_0000_0000 == ClearCount(words, 0, FRAMES)
       <==> counted % 0x1_0000_0000 == ClearCount(z, 0, FRAMES)
  {
    hide Marked, ClearCount;
    ClearAfterMark(z, words, k);
    ClearBound(z, 0, FRAMES);
    Lowered(counted, ClearCount(z, 0, FRAMES), ClearCount(z, 0, k + 1));
  }

  lemma Lowered(counted: nat, clear: nat, taken: nat)
    requires taken <= clear <= FRAMES
    ensures (counted - taken) % 0x1_0000_0000 == clear - taken <==> counted % 0x1_0000_0000 == clear
  {
  }

  /** In terms of the map alone: the credits must add up to all zeroed frames and the
      frames that were clear in the last word. */
  lemma CounterExactly(words: seq<bv32>, regions: Map)
    requires |words| >= WINDOW
    ensures Counted(Zeroed(words), regions) % 0x1_0000_0000 == ClearCount(Zeroed(words), 0, FRAMES)
       <==> Credits(words, regions) % 0x1_0000_0000 == ZEROED + ClearCount(words, ZEROED, FRAMES)
  {
    hide Marked, ClearCount, Credits, Counted;
    CountedIsCredits(words, regions);
    ZeroedClear(words, 0, FRAMES);
  }

  /** Without any RAM region the counter ends up below zero, that is near 2^32, while
      at least ZEROED - 1 - k frames behind the kernel are clear. */
  lemma CounterWraps(words: seq<bv32>, after: seq<bv32>, k: nat)
    requires |words| >= WINDOW && |after| == |words| && k < ZEROED
    requires forall f: nat :: f < FRAMES ==> (Marked(after, f) <==> f <= k || Marked(Zeroed(words), f))
    ensures (Counted(Zeroed(words), []) - ClearCount(Zeroed(words), 0, k + 1)) % 0x1_0000_0000 == 0xFFFF_FFFF - k
    ensures ZEROED - 1 - k <= ClearCount(after, 0, FRAMES) <= FRAMES
  {
    hide Marked, ClearCount;
    AllClear(Zeroed(words), 0, k + 1);
    ClearAfterMark(Zeroed(words), after, k);
    ZeroedClear(words, 0, FRAMES);
  }
}

/** The allocator object of src/kernel/pmm.cpp. */
module FrameAllocators {
  import opened Machine
  import opened MemoryMap
  import opened FrameBits
  import opened FrameSpec
  import opened FrameInit
  import opened MapEntries

  class FrameAllocator {
    /** _kernel_end, where the bitmap starts. */
    const kernelEnd: nat
    /** The memory from _kernel_end on, in words: the bitmap and what lies behind it. */
    const bitmap: array<bv32>
    var freePages: nat
    var earlyAlloc: bool

    ghost predicate Valid()
      reads this
    {
      bitmap.Length == WINDOW && kernelEnd + BITMAP_BYTES < TWO32 && freePages < TWO32
    }

    /** The set of used frames, the free counter and the mode. */
    ghost function Abs(): State
      requires Valid()
      reads this, bitmap
    {
      State(Frames(bitmap[..]), freePages, earlyAlloc)
    }

    constructor (kernelEnd: nat, memory: array<bv32>)
      requires memory.Length == WINDOW && kernelEnd + BITMAP_BYTES < TWO32
      ensures Valid() && bitmap == memory && this.kernelEnd == kernelEnd && !earlyAlloc
    {
      this.kernelEnd := kernelEnd;
      bitmap := memory;
      freePages := 0;
      earlyAlloc := false;
    }

    predicate Test(page: nat)
      requires Valid() && page < 32 * WINDOW
      reads this, bitmap
      ensures Test(page) == Marked(bitmap[..], page)
    {
      Bit(bitmap[page / 32], page % 32)
    }

    method Set(page: nat)
      requires Valid() && page < 32 * WINDOW
      modifies bitmap
      ensures bitmap[..] == SetBit(old(bitmap[..]), page)
      ensures page < FRAMES ==> bitmap[WORDS..] == old(bitmap[WORDS..])
    {
      hide Or, Mask;
      bitmap[page / 32] := Or(bitmap[page / 32], Mask(page % 32));
    }

    method Clear(page: nat)
      requires Valid() && page < 32 * WINDOW
      modifies bitmap
      ensures bitmap[..] == ClearBit(old(bitmap[..]), page)
      ensures page < FRAMES ==> bitmap[WORDS..] == old(bitmap[WORDS..])
    {
      hide AndNot, Mask;
      bitmap[page / 32] := AndNot(bitmap[page / 32], Mask(page % 32));
    }

    /** pmm_init for a memory map in m, outside the bitmap: whatever memory and map
        held, the frames that end up used below the last word are exactly those up to
        the one that the last byte of the bitmap is in. */
    method Init(m: array<Word>, mmapAddr: nat, mmapLength: nat)
      requires Valid() && m.Length == MEMORY_WORDS && m as object != bitmap as object
      requires mmapAddr % 4 == 0 && mmapAddr + mmapLength + 32 <= TWO32
      modifies this, bitmap
      ensures Valid() && earlyAlloc == old(earlyAlloc)
      ensures forall f: nat :: f < 32 * WINDOW ==>
        (Marked(bitmap[..], f) <==>
         f <= (kernelEnd + 0x1_FFFF) / 4096 || (f >= 0xF_FFE0 && Marked(old(bitmap[..]), f)))
      ensures forall f: nat :: f < 0xF_FFE0 ==> (f in Abs().used <==> f <= (kernelEnd + 0x1_FFFF) / 4096)
      ensures forall f: nat :: f <= (kernelEnd + 0x1_FFFF) / 4096 ==> f in Abs().used
      ensures var z, regions := Zeroed(old(bitmap[..])), Visited(old(m[..]), mmapAddr, mmapAddr + mmapLength);
        && freePages == (Counted(z, regions) - ClearCount(z, 0, (kernelEnd + 0x1_FFFF) / 4096 + 1)) % 0x1_0000_0000
        && (freePages == ClearCount(bitmap[..], 0, FRAMES) <==>
            Counted(z, regions) % 0x1_0000_0000 == ClearCount(z, 0, FRAMES))
    {
      hide Marked, Counted, ClearCount, Visited;
      ghost var z := Zeroed(bitmap[..]);
      ClearWords();
      CountRegions(m, mmapAddr, mmapLength);
      MarkKernel();
      ghost var counted := Counted(z, Visited(m[..], mmapAddr, mmapAddr + mmapLength));
      CounterRight(z, bitmap[..], (kernelEnd + 0x1_FFFF) / 4096, counted);
    }

    method ClearWords()
      requires Valid()
      modifies this, bitmap
      ensures Valid() && earlyAlloc == old(earlyAlloc) && freePages == 0
      ensures bitmap[..] == Zeroed(old(bitmap[..]))
    {
      hide Marked;
      freePages := 0;
      for i := 0 to TOTAL_PAGES / 32
        invariant Valid() && earlyAlloc == old(earlyAlloc) && freePages == 0
        invariant forall k :: 0 <= k < i ==> bitmap[k] == 0
        invariant forall k :: i <= k < WINDOW ==> bitmap[k] == old(bitmap[k])
      {
        bitmap[i] := 0;
      }
    }

    /** The region loop over the memory map in m: it changes no bit, it only counts. */
    method CountRegions(m: array<Word>, mmapAddr: nat, mmapLength: nat)
      requires Valid() && freePages == 0
      requires m.Length == MEMORY_WORDS && m as object != bitmap as object
      requires mmapAddr % 4 == 0 && mmapAddr + mmapLength + 32 <= TWO32
      modifies this, bitmap
      ensures Valid() && earlyAlloc == old(earlyAlloc)
      ensures bitmap[..] == old(bitmap[..])
      ensures freePages ==
        Counted(old(bitmap[..]), Visited(old(m[..]), mmapAddr, mmapAddr + mmapLength)) % 0x1_0000_0000
    {
      hide Marked, Counted, CountOf, RegionAt, Visited;
      ghost var words, memory, done: Map := bitmap[..], m[..], [];
      var entry, end := mmapAddr, mmapAddr + mmapLength;
      NothingCounted(words, memory, entry, end);
      while entry < end
        invariant Valid() && earlyAlloc == old(earlyAlloc)
        invariant bitmap[..] == words && m[..] == memory
        invariant done + Visited(memory, entry, end) == Visited(memory, mmapAddr, end)
        invariant freePages == Counted(words, done) % 0x1_0000_0000
        decreases end - entry
      {
        AddModulo(Counted(words, done), CountOf(words, RegionAt(memory, entry)));
        var r := ReadEntry(m, entry);
        CountStep(words, memory, done, entry, end);
        CountRegion(r);
        done := done + [r];
        entry := entry + 24 + (if r.kind == RAM then 8 else 0);
      }
      VisitedFirst(memory, entry, end);
      assert done + Visited(memory, entry, end) == done;
    }

    method CountRegion(r: Region)
      requires Valid()
      modifies this, bitmap
      ensures Valid() && earlyAlloc == old(earlyAlloc)
      ensures bitmap[..] == old(bitmap[..])
      ensures freePages == (old(freePages) + CountOf(old(bitmap[..]), r)) % 0x1_0000_0000
    {
      hide Marked, ClearCount, First, End;
      if r.kind == RAM {
        CountPages(First(r), End(r));
      }
    }

    static lemma NothingCounted(words: seq<bv32>, m: seq<Word>, at: nat, end: nat)
      requires |words| >= WINDOW && |m| == MEMORY_WORDS && end + 32 <= TWO32
      ensures Counted(words, []) == 0 && [] + Visited(m, at, end) == Visited(m, at, end)
    {
      hide Visited;
      assert forall s: seq<Region> :: [] + s == s;
    }

    static lemma CountStep(words: seq<bv32>, m: seq<Word>, done: Map, at: nat, end: nat)
      requires |words| >= WINDOW && |m| == MEMORY_WORDS && at < end && end + 32 <= TWO32
      ensures var r := RegionAt(m, at);
        && done + Visited(m, at, end) ==
           (done + [r]) + Visited(m, at + 24 + (if r.kind == RAM then 8 else 0), end)
        && Counted(words, done + [r]) == Counted(words, done) + CountOf(words, r)
    {
      hide RegionAt, Visited, Counted, CountOf;
      VisitedFirst(m, at, end);
      CountedAppend(words, done, RegionAt(m, at));
    }

    method CountPages(first: nat, end: nat)
      requires Valid() && first <= end <= 32 * WINDOW
      modifies this, bitmap
      ensures Valid() && earlyAlloc == old(earlyAlloc)
      ensures bitmap[..] == old(bitmap[..])
      ensures freePages == (old(freePages) + ClearCount(old(bitmap[..]), first, end)) % 0x1_0000_0000
    {
      hide Marked, ClearBit, Bit, Mask, First, End, Up;
      ghost var words := bitmap[..];
      for page := first to end
        invariant Valid() && earlyAlloc == old(earlyAlloc)
        invariant bitmap[..] == words
        invariant freePages == (old(freePages) + ClearCount(words, first, page)) % 0x1_0000_0000
      {
        if !Test(page) {
          Clear(page);
          ClearingClearBit(words, page);
          UpCounts(old(freePages) + ClearCount(words, first, page));
          freePages := Up(freePages);
        }
      }
    }

    method MarkKernel()
      requires Valid()
      modifies this, bitmap
      ensures Valid() && earlyAlloc == old(earlyAlloc)
      ensures forall f: nat :: f < 32 * WINDOW ==>
        (Marked(bitmap[..], f) <==> f <= (kernelEnd + 0x1_FFFF) / 4096 || Marked(old(bitmap[..]), f))
      ensures freePages ==
        (old(freePages) - ClearCount(old(bitmap[..]), 0, (kernelEnd + 0x1_FFFF) / 4096 + 1)) % 0x1_0000_0000
    {
      hide Marked, SetBit, Bit, Mask, Down;
      ghost var words := bitmap[..];
      for page := 0 to (kernelEnd + BITMAP_BYTES) / 4096 + 1
        invariant Valid() && earlyAlloc == old(earlyAlloc)
        invariant forall f: nat :: f < 32 * WINDOW ==>
          (Marked(bitmap[..], f) <==> f < page || Marked(words, f))
        invariant freePages == (old(freePages) - ClearCount(words, 0, page)) % 0x1_0000_0000
      {
        MarkPage(page);
        DownCounts(old(freePages) - ClearCount(words, 0, page));
      }
    }

    method MarkPage(page: nat)
      requires Valid() && page < 32 * WINDOW
      modifies this, bitmap
      ensures Valid() && earlyAlloc == old(earlyAlloc)
      ensures forall f: nat :: f < 32 * WINDOW ==>
        (Marked(bitmap[..], f) <==> f == page || Marked(old(bitmap[..]), f))
      ensures freePages == if Marked(old(bitmap[..]), page) then old(freePages) else Down(old(freePages))
    {
      hide Marked, SetBit, Bit, Mask;
      ghost var words := bitmap[..];
      if !Test(page) {
        Set(page);
        freePages := Down(freePages);
        forall f: nat | f < 32 * WINDOW
          ensures Marked(bitmap[..], f) <==> Marked(words, f) || f == page
        {
          SetBitMarks(words, page, f);
        }
      }
    }

    method SetEarlyAlloc(on: bool)
      requires Valid()
      modifies this`earlyAlloc
      ensures Valid() && Abs() == Step(old(Abs()), SetEarly(on))
      ensures earlyAlloc == on && Abs().used == old(Abs()).used && freePages == old(freePages)
    {
      earlyAlloc := on;
    }

    /** pmm_alloc_page; 0 is the null pointer. */
    method AllocPage() returns (addr: nat)
      requires Valid()
      modifies this, bitmap
      ensures Valid() && (Abs(), addr) == Alloc(old(Abs()))
      ensures bitmap[WORDS..] == old(bitmap[WORDS..])
    {
      hide Marked, SetBit, Bit, Mask, Frames;
      var end := if earlyAlloc then 0x40_0000 / 4096 else TOTAL_PAGES;
      ghost var words := bitmap[..];
      for page := 0 to end
        invariant Valid() && bitmap[..] == words
        invariant Abs() == old(Abs())
        invariant forall f: nat :: f < page ==> f in Frames(words)
      {
        WordBitmapIsSet(words, page);
        if !Test(page) {
          Set(page);
          freePages := Down(freePages);
          return page * 4096;
        }
      }
      return 0;
    }

    /** pmm_free_page, for any 32-bit address. */
    method FreePage(addr: nat)
      requires Valid() && addr < TWO32
      modifies this, bitmap
      ensures Valid() && Abs() == Free(old(Abs()), addr)
      ensures Abs().used == old(Abs()).used - {addr / 4096}
      ensures freePages ==
        if addr / 4096 in old(Abs()).used then (old(freePages) + 1) % 0x1_0000_0000 else old(freePages)
      ensures bitmap[WORDS..] == old(bitmap[WORDS..])
    {
      hide Marked, ClearBit, Bit, Mask, Frames;
      var page := addr / 4096;
      WordBitmapIsSet(bitmap[..], page);
      if Test(page) {
        Clear(page);
        freePages := Up(freePages);
      }
    }
  }

  /** Every byte of every bitmap word that an allocation or a free can touch lies
      in the frames that Init marks used, the uncleared last word included. */
  lemma BitmapStorageReserved(kernelEnd: nat, word: nat, byte: nat)
    requires word < 0x8000 && byte < 4
    ensures (kernelEnd + 4 * word + byte) / 4096 <= (kernelEnd + 0x1_FFFF) / 4096
  {
  }

  /** After Init no legal run hands out a frame that holds a byte of the kernel image or
      of a bitmap word, and those frames stay used. */
  lemma BitmapNeverAllocated(s: State, ops: seq<Op>, kernelEnd: nat, at: nat)
    requires forall f: nat :: f <= (kernelEnd + 0x1_FFFF) / 4096 ==> f in s.used
    requires Legal(Tracked(s, {}), ops) && at <= kernelEnd + 0x1_FFFF
    ensures var t := FollowAll(Tracked(s, {}), ops);
      && at / 4096 in t.state.used && at / 4096 !in t.live
      && (Alloc(t.state).1 == 0 || Alloc(t.state).1 / 4096 != at / 4096)
  {
    KernelFramesNeverAllocated(s, ops, (kernelEnd + 0x1_FFFF) / 4096);
    LegalRunAccounts(Tracked(s, {}), ops, s.used);
  }
}
