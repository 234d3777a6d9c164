/** The memory part of kernel_main in src/kernel/kernel.cpp: the tag walk, pmm_init
    and the paging calls, on one memory. */
module KernelBoot {
  import opened Machine
  import opened MemoryMap
  import opened BootInfo
  import opened MapEntries
  import opened FrameBits
  import opened FrameInit
  import opened FrameAllocators
  import opened PageWalk
  import opened PageSpans
  import opened Paging
  import opened BootMapping

  /** The last memory-map tag of the list, of type 6, holds exactly the regions behind the
      two words for size and version of an entry; without such a tag there are none. */
  ghost predicate HoldsMap(tags: seq<Tag>, rs: Map)
    requires TagsOk(tags)
  {
    var k := LastOf(tags, 6);
    if k < 0 then rs == []
    else
      && tags[k].size == 16 + 24 * |rs|
      && forall i :: 0 <= i < |rs| ==> EntryAt(tags[k].body, 2 + 6 * i, rs[i])
  }

  /** The last framebuffer tag, of type 8, says that the buffer starts at a and has n bytes:
      behind the head are the address, low word first, the pitch, the width and the
      height. Without such a tag both are 0. */
  ghost predicate HoldsBuffer(tags: seq<Tag>, a: nat, n: nat) {
    var k := LastOf(tags, 8);
    if k < 0 then a == 0 && n == 0
    else
      && |tags[k].body| >= 5
      && a == tags[k].body[0] as nat + tags[k].body[1] as nat * 0x1_0000_0000
      && n == tags[k].body[2] as nat * tags[k].body[4] as nat
  }

  /** (uint64_t)pitch * height */
  function BufferSize(pitch: Word, height: Word): (n: nat)
    ensures n < TWO64
  {
    ProductsBounded(pitch, height);
    pitch * height
  }

  lemma ProductsBounded(x: Word, y: Word)
    ensures 0 <= x * y < TWO64
  {
    assert x * y <= x * TWO32 <= TWO32 * TWO32;
  }

  function EndOfTags(mbInfo: nat, tags: seq<Tag>): nat {
    mbInfo + 8 + 4 * |Encode(tags)|
  }

  /** The tag list is in memory behind the 8 bytes at mbInfo, apart from the page tables
      and the end of memory. */
  ghost predicate TagsAt(m: seq<Word>, mbInfo: nat, tags: seq<Tag>) {
    && |m| == MEMORY_WORDS && mbInfo % 8 == 0 && TagsOk(tags)
    && EndOfTags(mbInfo, tags) + 32 <= TWO32
    && (EndOfTags(mbInfo, tags) + ENTRY <= 0x20_0000 || mbInfo >= TableAddr(1024))
    && m[mbInfo / 4 + 2..mbInfo / 4 + 2 + |Encode(tags)|] == Encode(tags)
  }

  /** Where the regions of a map tag are. */
  lemma RegionsAt(m: seq<Word>, tags: seq<Tag>, k: nat, base: nat, w: nat, rs: Map)
    requires TagsOk(tags) && k < |tags| && base + |Encode(tags)| <= |m|
    requires m[base..base + |Encode(tags)|] == Encode(tags) && w == base + |Encode(tags[..k])| - 2
    requires |tags[k].body| == 2 + 6 * |rs| && forall i :: 0 <= i < |rs| ==> EntryAt(tags[k].body, 2 + 6 * i, rs[i])
    ensures w + 4 + 6 * |rs| + 2 <= base + |Encode(tags)|
    ensures forall i :: 0 <= i < |rs| ==> EntryAt(m, w + 4 + 6 * i, rs[i])
  {
    hide Encode, TagsOk, Tag.Words;
    EndOrTag(m, tags, k, base, w);
    TagAt(tags, k);
    var t := tags[k];
    hide EntryAt;
    forall i | 0 <= i < |rs|
      ensures EntryAt(m, w + 4 + 6 * i, rs[i])
    {
      EntryMoved(m, w, t, 2 + 6 * i, rs[i]);
    }
  }

  lemma EntryMoved(m: seq<Word>, w: nat, t: Tag, j: nat, r: Region)
    requires w + |t.Words()| <= |m| && m[w..w + |t.Words()|] == t.Words()
    requires EntryAt(t.body, j, r)
    ensures EntryAt(m, w + 2 + j, r)
  {
    hide Tag.Words;
    BodyAt(m, w, t, j);
    BodyAt(m, w, t, j + 1);
    BodyAt(m, w, t, j + 2);
    BodyAt(m, w, t, j + 3);
    BodyAt(m, w, t, j + 4);
  }

  /** The word where the map starts that the walk yields, and the words of its entries. */
  lemma MapWords(m: seq<Word>, mbInfo: nat, tags: seq<Tag>, rs: Map) returns (w: nat)
    requires TagsAt(m, mbInfo, tags) && HoldsMap(tags, rs) && LastMap(tags, mbInfo + 8).Some?
    ensures LastMap(tags, mbInfo + 8) == Some(MapSpan(4 * w, 24 * |rs|))
    ensures mbInfo <= 4 * w && 4 * w + 24 * |rs| <= EndOfTags(mbInfo, tags)
    ensures w + 6 * |rs| <= |m| && forall i :: 0 <= i < |rs| ==> EntryAt(m, w + 6 * i, rs[i])
  {
    hide Encode, Tag.Words, Tag.Ok, LastMap, LastOf, EntryAt, TagsAt, EndOfTags, TagsOk;
    var base := TagList(m, mbInfo, tags);
    LastMapIs(tags, mbInfo + 8);
    var k := LastOf(tags, TAG_MMAP);
    Quotient(16 + 24 * |rs| + 7, 2 + 3 * |rs|, 7, 8);
    w := base + |Encode(tags[..k])| + 2;
    RegionsAt(m, tags, k, base, w - 4, rs);
  }

  lemma TagList(m: seq<Word>, mbInfo: nat, tags: seq<Tag>) returns (base: nat)
    requires TagsAt(m, mbInfo, tags)
    ensures 4 * base == mbInfo + 8 && 4 * (base + |Encode(tags)|) == EndOfTags(mbInfo, tags) && TagsOk(tags)
    ensures base + |Encode(tags)| <= |m| && m[base..base + |Encode(tags)|] == Encode(tags)
  {
    hide Encode, TagsOk, TableAddr;
    base := mbInfo / 4 + 2;
    Quotient(mbInfo, 2 * (mbInfo / 8), 0, 4);
  }

  /** The span that the walk yields is the map in memory. */
  lemma MapInMemory(m: seq<Word>, mbInfo: nat, tags: seq<Tag>, rs: Map)
    requires TagsAt(m, mbInfo, tags) && HoldsMap(tags, rs) && LastMap(tags, mbInfo + 8).Some?
    ensures var span := LastMap(tags, mbInfo + 8).value;
      && MapAt(m, span.addr, rs) && span.length == 24 * |rs| && MapApart(span.addr, span.length)
      && span.addr + span.length + 32 <= TWO32
  {
    hide HoldsMap, LastMap, TagsOk, TagsAt, EndOfTags, MapAt, EntryAt;
    var w := MapWords(m, mbInfo, tags, rs);
    PartApart(m, mbInfo, tags, 4 * w, 24 * |rs|);
    hide MapApart;
    MapOfEntries(m, w, rs);
  }

  /** What lies between the tags is apart from the page tables, as they are. */
  lemma PartApart(m: seq<Word>, mbInfo: nat, tags: seq<Tag>, addr: nat, length: nat)
    requires TagsAt(m, mbInfo, tags) && mbInfo <= addr && addr + length <= EndOfTags(mbInfo, tags)
    requires addr % 4 == 0
    ensures |m| == MEMORY_WORDS && MapApart(addr, length) && addr + length + 32 <= TWO32
  {
    hide Encode, TagsOk;
  }

  lemma MapOfEntries(m: seq<Word>, w: nat, rs: Map)
    requires |m| == MEMORY_WORDS && 4 * w + 24 * |rs| + 32 <= TWO32
    requires forall i :: 0 <= i < |rs| ==> EntryAt(m, w + 6 * i, rs[i])
    ensures MapAt(m, 4 * w, rs)
  {
    hide EntryAt, RegionAt;
    forall i | 0 <= i < |rs|
      ensures RegionAt(m, 4 * w + 24 * i) == rs[i]
    {
      Quotient(4 * w + 24 * i, w + 6 * i, 0, 4);
      EntryRead(m, 4 * w + 24 * i, rs[i]);
    }
  }

  lemma LastMapIs(tags: seq<Tag>, addr: nat)
    requires TagsOk(tags) && LastMap(tags, addr).Some?
    ensures var k := LastOf(tags, TAG_MMAP);
      && k >= 0 && tags[k].size >= 16 && |Encode(tags[..k])| >= 2
      && |tags[k].body| == 2 * ((tags[k].size + 7) / 8) - 2
      && LastMap(tags, addr) == Some(MapSpan(addr + 4 * (|Encode(tags[..k])| - 2) + 16, tags[k].size - 16))
  {
    hide Encode, Positions;
    PositionIs(tags, addr, LastOf(tags, TAG_MMAP));
  }

  lemma DecodedIsMap(m: seq<Word>, addr: nat, length: nat, rs: Map)
    requires |m| == MEMORY_WORDS && addr + length + 32 <= TWO32
    requires if rs == [] then length == 0 else MapAt(m, addr, rs) && length == 24 * |rs|
    ensures Decoded(m, addr, addr + length) == rs
    ensures RamLast(rs) ==> Visited(m, addr, addr + length) == rs
  {
    hide RegionAt;
    if rs != [] {
      DecodedOfMap(m, addr, rs, 0);
      if RamLast(rs) {
        VisitedOfMap(m, addr, rs, 0);
      }
      hide Decoded, Visited;
      assert rs[0..] == rs;
    }
  }

  /** No region but the last is of type 1. */
  predicate RamLast(rs: Map) {
    forall j :: 0 <= j < |rs| - 1 ==> rs[j].kind != 1
  }

  lemma LastTags(tags: seq<Tag>, addr: nat)
    requires TagsOk(tags)
    ensures LastMap(tags, addr).Some? <==> LastOf(tags, 6) >= 0
    ensures LastFramebuffer(tags).Some? <==> LastOf(tags, 8) >= 0
  {
    hide FramebufferOf, Positions;
  }

  /** What kernel_main takes from the tags. */
  method ReadTags(m: array<Word>, mbInfo: nat, ghost tags: seq<Tag>, ghost rs: Map, ghost a: nat, ghost n: nat)
    returns (hasMap: bool, mmapAddr: nat, mmapLength: nat, fbFound: bool, fbAddr: nat, fbSize: nat)
    requires m.Length == MEMORY_WORDS && TagsAt(m[..], mbInfo, tags) && HoldsMap(tags, rs) && HoldsBuffer(tags, a, n)
    ensures hasMap <==> LastOf(tags, 6) >= 0
    ensures MapApart(mmapAddr, mmapLength) && mmapAddr + mmapLength + 32 <= TWO32
    ensures Decoded(m[..], mmapAddr, mmapAddr + mmapLength) == rs
    ensures RamLast(rs) ==> Visited(m[..], mmapAddr, mmapAddr + mmapLength) == rs
    ensures fbAddr == a < TWO64 && fbSize == n < TWO64 && (fbFound <==> LastOf(tags, 8) >= 0)
    ensures !fbFound ==> a == 0 && n == 0
  {
    hide Positions, Decoded, Visited, RamLast, LastMap;
    var info, _ := BootInfo.Walk(m, mbInfo, tags);
    LastTags(tags, mbInfo + 8);
    hasMap, mmapAddr, mmapLength := info.mmap.Some?, 0, 0;
    if hasMap {
      mmapAddr, mmapLength := info.mmap.value.addr, info.mmap.value.length;
      MapInMemory(m[..], mbInfo, tags, rs);
    }
    hide MapAt, TagsAt;
    DecodedIsMap(m[..], mmapAddr, mmapLength, rs);
    fbFound, fbAddr, fbSize := info.framebuffer.Some?, 0, 0;
    if fbFound {
      fbAddr := info.framebuffer.value.addr;
      fbSize := BufferSize(info.framebuffer.value.pitch, info.framebuffer.value.height);
    }
  }

  /** The byte at the 64-bit address b is mapped at its low 32 bits, with flags 7. */
  predicate Identity(m: seq<Word>, b: nat)
    requires |m| == MEMORY_WORDS
  {
    PageWalk.Walk(m, b % 0x1_0000_0000) == To(b % 0x1_0000_0000, 7, 7)
  }

  /** Byte b lies in a 4096-byte page at or above 4 MiB that is wholly inside r, a region of
      type 1 that ends below 2^64. */
  predicate RamByte(r: Region, b: nat) {
    && r.kind == 1 && 0x40_0000 <= b && r.addr + r.len < 0x1_0000_0000_0000_0000
    && r.addr <= b / 4096 * 4096 && b / 4096 * 4096 + 4096 <= r.addr + r.len
  }

  /** The pages in which b can be: below 4 MiB, in RAM, in the buffer. */
  ghost predicate Spanned(rs: Map, a: nat, n: nat, b: nat) {
    b % 0x1_0000_0000 / 4096 in Pages(FIRST_4M) + MapPages(rs) + Pages(FramebufferSpan(a, n))
  }

  lemma PageOfByte(b: nat)
    ensures b % 0x1_0000_0000 / 4096 == Low(b / 4096)
  {
    var x, r := b / 4096, b % 4096;
    var q, p := x / 0x10_0000, x % 0x10_0000;
    Quotient(b, q, p * 4096 + r, 0x1_0000_0000);
    Quotient(p * 4096 + r, p, r, 4096);
  }

  lemma CoveredByte(s: Span, b: nat)
    requires Covers(s, b / 4096)
    ensures b % 0x1_0000_0000 / 4096 in Pages(s)
  {
    PageOfByte(b);
    hide Low;
    assert Reaches(s, Low(b / 4096));
  }

  lemma FirstSpanned(rs: Map, a: nat, n: nat, b: nat)
    requires b < 0x40_0000
    ensures Spanned(rs, a, n, b)
  {
    hide MapPages, FramebufferSpan, Pages;
    CoveredByte(FIRST_4M, b);
  }

  /** Every byte of a buffer whose rounded end does not wrap around. */
  lemma BufferSpanned(rs: Map, a: nat, n: nat, b: nat)
    requires a <= b < a + n && a + n + 0xFFF < TWO64
    ensures Spanned(rs, a, n, b)
  {
    hide MapPages, Pages, FramebufferSpan, Covers;
    BufferCovered(a, n, b / 4096);
    CoveredByte(FramebufferSpan(a, n), b);
  }

  /** Every byte of a page of RAM. */
  lemma RamSpanned(rs: Map, a: nat, n: nat, i: nat, b: nat)
    requires i < |rs| && RamByte(rs[i], b)
    ensures Spanned(rs, a, n, b)
  {
    RegionExact(rs[i], b / 4096);
    hide MapPages, Pages, FramebufferSpan, RegionSpan;
    CoveredByte(RegionSpan(rs[i]), b);
    RegionMapped(rs, i);
  }

  lemma {:induction false} RegionMapped(rs: Map, i: nat)
    requires i < |rs|
    ensures Pages(RegionSpan(rs[i])) <= MapPages(rs)
    decreases |rs|
  {
    hide Pages, RegionSpan;
    if i < |rs| - 1 {
      RegionMapped(rs[..|rs| - 1], i);
    }
  }

  /** Conversely, what is mapped at or above 4 MiB lies in a page that the region at index i
      of type 1 holds, or if i is negative in one that meets the buffer. */
  lemma MappedFrom(rs: Map, a: nat, n: nat, addr: Word) returns (b: nat, i: int)
    requires Expected(rs, a, n, addr) != NotPresent && addr >= 0x40_0000
    ensures b % 0x1_0000_0000 == addr && i < |rs|
    ensures i < 0 ==> n > 0 && a < b / 4096 * 4096 + 4096 && b / 4096 * 4096 < a + n
    ensures i >= 0 ==>
      && rs[i].kind == 1 && 0x40_0000 <= b
      && rs[i].addr <= b / 4096 * 4096 && b / 4096 * 4096 + 4096 <= rs[i].addr + rs[i].len
  {
    var x: nat;
    if RamPage(rs, addr / 4096) {
      var j, y :| 0 <= j < |rs| && RamHolds(rs[j], y) && Low(y) == addr / 4096;
      i, x := j, y;
    } else {
      var y :| Intersects(a, n, y) && Low(y) == addr / 4096;
      i, x := -1, y;
    }
    b := x * 4096 + addr % 4096;
    ByteOfPage(x, addr);
  }

  lemma ByteOfPage(x: nat, addr: Word)
    requires Low(x) == addr / 4096
    ensures var b := x * 4096 + addr % 4096; b % 0x1_0000_0000 == addr && b / 4096 == x
  {
    var b := x * 4096 + addr % 4096;
    Quotient(b, x, addr % 4096, 4096);
    Quotient(b, x / 0x10_0000, addr, 0x1_0000_0000);
  }

  /** kernel_main up to paging, with the bitmap outside of the modelled memory words.
      From any memory that holds a tag list, with the last framebuffer of n bytes at a, an
      address translates to itself afterwards exactly when it is below 4 MiB, in a page
      of RAM of the last memory map, or in a page of the framebuffer, if their spans
      fit; every other address is not present. Without that condition, the first 4 MiB,
      every byte of a framebuffer that ends below 2^64 and every whole page of a RAM
      region that does are mapped. If no region but the last is RAM, the allocator is
      initialised with the regions of that map. */
  method Boot(pmm: FrameAllocator, paging: PageTables, mbInfo: nat, idtStart: nat,
              ghost tags: seq<Tag>, ghost rs: Map, ghost a: nat, ghost n: nat)
    requires pmm.Valid() && paging.mem as object != pmm.bitmap as object
    requires paging.mem.Length == MEMORY_WORDS && paging.nextPt == 0x20_2000
    requires idtStart + IDT_BYTES <= 0xFFFF_F000
    requires TagsAt(paging.mem[..], mbInfo, tags) && HoldsMap(tags, rs) && HoldsBuffer(tags, a, n)
    modifies pmm, pmm.bitmap, paging, paging.mem
    ensures pmm.Valid() && paging.Valid() && paging.Confined(old(paging.mem[..]), [0])
    ensures SpansFit(rs, a, n) ==>
      forall addr: Word :: PageWalk.Walk(paging.mem[..], addr) == Expected(rs, a, n, addr)
    ensures a + n + 0xFFF < 0x1_0000_0000_0000_0000 ==>
      forall b: nat :: a <= b < a + n ==> Identity(paging.mem[..], b)
    ensures forall b: nat :: b < 0x40_0000 ==> Identity(paging.mem[..], b)
    ensures forall i: nat, b: nat :: i < |rs| && RamByte(rs[i], b) ==> Identity(paging.mem[..], b)
    ensures LastOf(tags, 6) < 0 ==> pmm.bitmap[..] == old(pmm.bitmap[..]) && pmm.freePages == old(pmm.freePages)
    ensures LastOf(tags, 6) >= 0 ==>
      && (forall f: nat :: f < 0xF_FFE0 ==> (f in pmm.Abs().used <==> f <= (pmm.kernelEnd + 0x1_FFFF) / 4096))
      && forall f: nat :: f <= (pmm.kernelEnd + 0x1_FFFF) / 4096 ==> f in pmm.Abs().used
    ensures LastOf(tags, 6) >= 0 && RamLast(rs) ==>
      var z := Zeroed(old(pmm.bitmap[..]));
      pmm.freePages == (Counted(z, rs) - ClearCount(z, 0, (pmm.kernelEnd + 0x1_FFFF) / 4096 + 1)) % 0x1_0000_0000
  {
    hide TagsAt, HoldsMap, HoldsBuffer, Decoded, Visited, RamLast, Tables, Marked, Counted, ClearCount, Zeroed,
         Expected, SpansFit, PageWalk.Walk, Spanned, Pages, MapPages, FramebufferSpan;
    var hasMap, mmapAddr, mmapLength, fbFound, fbAddr, fbSize :=
      ReadTags(paging.mem, mbInfo, tags, rs, a, n);
    if hasMap {
      pmm.Init(paging.mem, mmapAddr, mmapLength);
    }
    BootTranslation(paging, mmapAddr, mmapLength, idtStart, fbFound, fbAddr, fbSize);
    BytesSpanned(rs, a, n);
    SpannedMapped(paging.mem[..], rs, a, n);
  }

  lemma BytesSpanned(rs: Map, a: nat, n: nat)
    ensures forall addr: Word :: Spanned(rs, a, n, addr) <==>
      addr / 4096 in Pages(FIRST_4M) + MapPages(rs) + Pages(FramebufferSpan(a, n))
  {
    hide Pages, MapPages, FramebufferSpan;
  }

  /** The bytes that are mapped whatever the other spans do. */
  lemma SpannedMapped(m: seq<Word>, rs: Map, a: nat, n: nat)
    requires |m| == MEMORY_WORDS
    requires forall addr: Word ::
      PageWalk.Walk(m, addr) == if Spanned(rs, a, n, addr) then To(addr, 7, 7) else NotPresent
    ensures a + n + 0xFFF < TWO64 ==> forall b: nat :: a <= b < a + n ==> Identity(m, b)
    ensures forall b: nat :: b < 0x40_0000 ==> Identity(m, b)
    ensures forall i: nat, b: nat :: i < |rs| && RamByte(rs[i], b) ==> Identity(m, b)
  {
    IdentitySpanned(m, rs, a, n);
    hide PageWalk.Walk, Spanned, Identity, RamByte;
    forall b: nat | b < 0x40_0000
      ensures Identity(m, b)
    {
      FirstSpanned(rs, a, n, b);
    }
    forall b: nat | a + n + 0xFFF < TWO64 && a <= b < a + n
      ensures Identity(m, b)
    {
      BufferSpanned(rs, a, n, b);
    }
    forall i: nat, b: nat | i < |rs| && RamByte(rs[i], b)
      ensures Identity(m, b)
    {
      RamSpanned(rs, a, n, i, b);
    }
  }

  lemma IdentitySpanned(m: seq<Word>, rs: Map, a: nat, n: nat)
    requires |m| == MEMORY_WORDS
    requires forall addr: Word ::
      PageWalk.Walk(m, addr) == if Spanned(rs, a, n, addr) then To(addr, 7, 7) else NotPresent
    ensures forall b: nat :: Spanned(rs, a, n, b) ==> Identity(m, b)
  {
    hide PageWalk.Walk, Pages, MapPages, FramebufferSpan;
    forall b: nat | Spanned(rs, a, n, b)
      ensures Identity(m, b)
    {
      assert Spanned(rs, a, n, b % 0x1_0000_0000);
    }
  }
}
