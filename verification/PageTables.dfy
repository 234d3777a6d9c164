/** The two-level page tables of src/kernel/paging.cpp in raw memory, in the format
    of 32-bit paging (section 4.3 of the Intel SDM, Volume 3A). */
module PageWalk {
  import opened Machine

  /** The page directory is at 0x200000; table k, in order of allocation, is at
      0x201000 + 0x1000 * k. Both as word indices. */
  const DIRECTORY: nat := 0x8_0000

  function TableWord(k: nat): nat {
    0x8_0400 + 1024 * k
  }

  function TableAddr(k: nat): nat {
    0x20_1000 + 4096 * k
  }

  /** Directory entry d. */
  function Pde(m: seq<Word>, d: nat): Word
    requires |m| == MEMORY_WORDS && d < 1024
  {
    m[DIRECTORY + d]
  }

  /** Entry j of table k. */
  function Pte(m: seq<Word>, k: nat, j: nat): Word
    requires |m| == MEMORY_WORDS && k < 1024 && j < 1024
  {
    m[TableWord(k) + j]
  }

  datatype Translation = NotPresent | To(phys: nat, directoryFlags: nat, tableFlags: nat)

  /** The walk that the processor makes for a 32-bit address. */
  function Walk(m: seq<Word>, addr: Word): Translation
    requires |m| == MEMORY_WORDS
  {
    var pde := m[DIRECTORY + addr / 0x40_0000];
    if pde % 2 == 0 then NotPresent
    else
      var pte := m[pde / 4096 * 1024 + addr / 4096 % 1024];
      if pte % 2 == 0 then NotPresent
      else To(pte / 4096 * 4096 + addr % 4096, pde % 4096, pte % 4096)
  }

  /** x | PAGE_PRESENT | PAGE_WRITABLE | PAGE_USER */
  function WithFlags(x: nat): nat {
    x - x % 8 + 7
  }

  /** x | PAGE_USER */
  function WithUser(x: Word): Word {
    if x / 4 % 2 == 1 then x else x + 4
  }

  /** The entry for page p when exactly the pages of the set are mapped. */
  function Entry(p: nat, mapped: set<nat>): nat {
    if p in mapped then p * 4096 + 7 else 0
  }

  /** order[k] is the directory index that table k serves. */
  ghost predicate OrderOk(order: seq<nat>) {
    && (forall k :: 0 <= k < |order| ==> order[k] < 1024)
    && (forall j, k :: 0 <= j < k < |order| ==> order[j] != order[k])
  }

  /** Memory holds tables that map exactly the pages in mapped, each to itself. */
  ghost predicate Tables(m: seq<Word>, order: seq<nat>, mapped: set<nat>) {
    && |m| == MEMORY_WORDS
    && OrderOk(order) && |order| <= 1024
    && (forall k :: 0 <= k < |order| ==> Pde(m, order[k]) == TableAddr(k) + 7)
    && (forall d :: 0 <= d < 1024 && d !in order ==> Pde(m, d) == 0)
    && (forall k, j :: 0 <= k < |order| && 0 <= j < 1024 ==> Pte(m, k, j) == Entry(order[k] * 1024 + j, mapped))
    && (forall p :: p in mapped ==> p < 0x10_0000 && p / 1024 in order)
  }

  /** The tables refine the flat partial identity map: an address translates to
      itself with flags 7 when its page is mapped, and is not present otherwise. */
  lemma WalkIsIdentity(m: seq<Word>, order: seq<nat>, mapped: set<nat>, addr: Word)
    requires Tables(m, order, mapped)
    ensures Walk(m, addr) == if addr / 4096 in mapped then To(addr, 7, 7) else NotPresent
  {
    hide Walk, OrderOk, Pde, Pte, TableAddr;
    var p := addr / 4096;
    var d := p / 1024;
    if d in order {
      var k :| 0 <= k < |order| && order[k] == d;
      assert Pde(m, order[k]) == TableAddr(k) + 7;
      assert Pte(m, k, p % 1024) == Entry(order[k] * 1024 + p % 1024, mapped);
      assert d * 1024 + p % 1024 == p;
      WalkThrough(m, addr, k, Entry(p, mapped));
    } else {
      assert Pde(m, d) == 0;
      WalkAbsent(m, addr);
    }
  }

  lemma WalkAbsent(m: seq<Word>, addr: Word)
    requires |m| == MEMORY_WORDS && Pde(m, addr / 4096 / 1024) == 0
    ensures Walk(m, addr) == NotPresent
  {
    Indexes(addr);
  }

  lemma Indexes(addr: nat)
    ensures addr / 0x40_0000 == addr / 4096 / 1024
  {
  }

  /** Address and flags of an entry that holds page p. */
  lemma EntryParts(p: nat)
    ensures (p * 4096 + 7) / 4096 == p && (p * 4096 + 7) % 4096 == 7 && (p * 4096 + 7) % 2 == 1
  {
  }

  lemma WalkThrough(m: seq<Word>, addr: Word, k: nat, pte: nat)
    requires |m| == MEMORY_WORDS && k < 1024
    requires Pde(m, addr / 4096 / 1024) == TableAddr(k) + 7
    requires Pte(m, k, addr / 4096 % 1024) == pte
    requires pte == 0 || pte == addr / 4096 * 4096 + 7
    ensures Walk(m, addr) == if pte == 0 then NotPresent else To(addr, 7, 7)
  {
    var p := addr / 4096;
    Indexes(addr);
    EntryParts(0x201 + k);
    EntryParts(p);
    assert TableAddr(k) + 7 == (0x201 + k) * 4096 + 7;
    assert TableWord(k) == (0x201 + k) * 1024;
    assert p * 4096 + addr % 4096 == addr;
  }

  /** Once paging is on, stores to the directory and the tables are translated as well.
      With the first 4 MiB mapped, every word of the directory and of the first n tables
      is where it was exactly when the pages from 4 MiB on that they take are mapped:
      always for n up to 511. */
  lemma TablesSeeThemselves(m: seq<Word>, order: seq<nat>, mapped: set<nat>, n: nat)
    requires |m| == MEMORY_WORDS && Tables(m, order, mapped)
    requires n <= 1024 && forall p: nat :: p < 1024 ==> p in mapped
    ensures (forall addr: Word :: 0x20_0000 <= addr < TableAddr(n) ==> Walk(m, addr) == To(addr, 7, 7)) <==>
      forall p :: 1024 <= p < 0x201 + n ==> p in mapped
  {
    hide Tables, Walk;
    forall addr: Word | 0x20_0000 <= addr < TableAddr(n)
      ensures Walk(m, addr) == To(addr, 7, 7) <==> addr / 4096 in mapped
    {
      WalkIsIdentity(m, order, mapped, addr);
    }
    forall p | 1024 <= p < 0x201 + n
      ensures var addr: Word := 4096 * p; Walk(m, addr) == To(addr, 7, 7) <==> p in mapped
    {
      Quotient(4096 * p, p, 0, 4096);
    }
  }

  lemma {:induction false} Pigeonhole(order: seq<nat>, n: nat)
    requires forall k :: 0 <= k < |order| ==> order[k] < n
    requires forall j, k :: 0 <= j < k < |order| ==> order[j] != order[k]
    ensures |order| <= n
  {
    if order != [] {
      assert order[0] < n;
      if n - 1 in order {
        var i :| 0 <= i < |order| && order[i] == n - 1;
        Pigeonhole(order[..i] + order[i + 1..], n - 1);
      } else {
        Pigeonhole(order, n - 1);
      }
    }
  }

  /** The directory entries that are present are as many as the tables: next_pt
      never passes 0x601000. */
  lemma PresentEntries(m: seq<Word>, order: seq<nat>, mapped: set<nat>)
    requires Tables(m, order, mapped)
    ensures |Present(m)| == |order|
    ensures TableAddr(|order|) <= 0x60_1000
  {
    assert Present(m) == Elements(order);
    DistinctCount(order);
  }

  lemma {:induction false} DistinctCount(s: seq<nat>)
    requires forall j, k :: 0 <= j < k < |s| ==> s[j] != s[k]
    ensures |Elements(s)| == |s|
  {
    if s == [] {
      assert Elements(s) == {};
    } else {
      var rest := s[1..];
      DistinctCount(rest);
      assert s == [s[0]] + rest;
      assert Elements(s) == {s[0]} + Elements(rest);
    }
  }

  ghost function Elements(s: seq<nat>): set<nat> {
    set d | d in s
  }

  /** The directory entries that are present. */
  ghost function Present(m: seq<Word>): set<nat>
    requires |m| == MEMORY_WORDS
  {
    set d: nat | d < 1024 && Pde(m, d) % 2 == 1
  }

  lemma EntryAfter(q: nat, p: nat, mapped: set<nat>)
    ensures Entry(q, mapped + {p}) == if q == p then p * 4096 + 7 else Entry(q, mapped)
  {
  }

  /** The word of an entry is that of page p exactly if it is the entry of page p. */
  lemma WordOfPage(order: seq<nat>, k: nat, p: nat, i: nat, j: nat)
    requires OrderOk(order) && k < |order| && order[k] == p / 1024 && i < |order| && j < 1024
    ensures TableWord(i) + j == TableWord(k) + p % 1024 <==> order[i] * 1024 + j == p
  {
    assert i != k ==> order[i] != order[k];
  }

  /** Writing the entry of page p into the table of its directory index. */
  lemma EntryWritten(m: seq<Word>, order: seq<nat>, mapped: set<nat>, k: nat, p: nat)
    requires Tables(m, order, mapped) && k < |order| && p < 0x10_0000 && order[k] == p / 1024
    ensures TableWord(k) + p % 1024 < MEMORY_WORDS
    ensures Tables(m[TableWord(k) + p % 1024 := p * 4096 + 7], order, mapped + {p})
  {
    hide Entry;
    var w := TableWord(k) + p % 1024;
    var m' := m[w := p * 4096 + 7];
    forall i, j | 0 <= i < |order| && 0 <= j < 1024
      ensures Pte(m', i, j) == Entry(order[i] * 1024 + j, mapped + {p})
    {
      assert Pte(m, i, j) == Entry(order[i] * 1024 + j, mapped);
      WordOfPage(order, k, p, i, j);
      EntryAfter(order[i] * 1024 + j, p, mapped);
    }
    forall d | 0 <= d < 1024
      ensures Pde(m', d) == Pde(m, d)
    {
    }
    hide Pde, Pte;
  }

  /** A fresh table, zeroed, is entered in the directory. */
  lemma TableAdded(m: seq<Word>, m': seq<Word>, order: seq<nat>, mapped: set<nat>, d: nat)
    requires Tables(m, order, mapped) && d < 1024 && d !in order && |order| < 1024
    requires |m'| == |m| && Pde(m', d) == TableAddr(|order|) + 7
    requires forall j :: 0 <= j < 1024 ==> Pte(m', |order|, j) == 0
    requires forall e :: 0 <= e < 1024 && e != d ==> Pde(m', e) == Pde(m, e)
    requires forall k, j :: 0 <= k < |order| && 0 <= j < 1024 ==> Pte(m', k, j) == Pte(m, k, j)
    ensures Tables(m', order + [d], mapped)
  {
    hide Pde, Pte, Entry;
    var order' := order + [d];
    assert forall e :: e in order' <==> e in order || e == d;
    forall k, j | 0 <= k < |order'| && 0 <= j < 1024
      ensures Pte(m', k, j) == Entry(order'[k] * 1024 + j, mapped)
    {
      if k < |order| {
        assert Pte(m, k, j) == Entry(order[k] * 1024 + j, mapped);
      } else {
        NotMapped(order, mapped, d, j);
        UnmappedEntry(d * 1024 + j, mapped);
      }
    }
  }

  /** Memory with the page at word first zeroed. */
  function ZeroedPage(m: seq<Word>, first: nat): (z: seq<Word>)
    requires first + 1024 <= |m|
    ensures |z| == |m|
    ensures forall w :: first <= w < first + 1024 ==> z[w] == 0
    ensures forall w :: 0 <= w < first || first + 1024 <= w < |m| ==> z[w] == m[w]
  {
    m[..first] + seq(1024, _ => 0) + m[first + 1024..]
  }

  /** Memory with the next page zeroed and entered as the table of index d. */
  function WithTable(m: seq<Word>, n: nat, d: nat): (m': seq<Word>)
    requires |m| == MEMORY_WORDS && n < 1024 && d < 1024
    ensures |m'| == MEMORY_WORDS
    ensures forall w :: 0 <= w < DIRECTORY || TableWord(n + 1) <= w < MEMORY_WORDS ==> m'[w] == m[w]
  {
    ZeroedPage(m, TableWord(n))[DIRECTORY + d := TableAddr(n) + 7]
  }

  lemma FreshTable(m: seq<Word>, order: seq<nat>, mapped: set<nat>, d: nat)
    requires |m| == MEMORY_WORDS && Tables(m, order, mapped)
    requires d < 1024 && d !in order && |order| < 1024
    ensures Tables(WithTable(m, |order|, d), order + [d], mapped)
  {
    hide Tables, ZeroedPage;
    TableAdded(m, WithTable(m, |order|, d), order, mapped, d);
  }

  lemma UnmappedEntry(p: nat, mapped: set<nat>)
    requires p !in mapped
    ensures Entry(p, mapped) == 0
  {
  }

  lemma NotMapped(order: seq<nat>, mapped: set<nat>, d: nat, j: nat)
    requires forall p :: p in mapped ==> p / 1024 in order
    requires d !in order && j < 1024
    ensures d * 1024 + j !in mapped
  {
    assert (d * 1024 + j) / 1024 == d;
  }

  /** A directory index that has no table leaves room for one. */
  lemma RoomForTable(order: seq<nat>, d: nat)
    requires OrderOk(order) && d < 1024 && d !in order
    ensures |order| < 1024
  {
    Pigeonhole(order + [d], 1024);
  }
}

/** Which pages paging_init_full and paging_map_framebuffer map. */
module PageSpans {
  import opened Machine
  import opened MemoryMap

  /** A half-open range of 64-bit physical addresses. */
  datatype Span = Span(lo: nat, hi: nat)

  const NOTHING := Span(0, 0)

  /** The range that the region loop maps, in the 64-bit arithmetic of the code. */
  function RegionSpan(r: Region): Span {
    if r.kind != RAM then NOTHING
    else
      var base := PageDown(U64(r.addr + 0xFFF));
      var len := PageDown(U64(r.len - (base - r.addr)));
      if base >= 0x40_0000 then Span(base, U64(base + len))
      else if U64(base + len) <= 0x40_0000 then NOTHING
      else Span(0x40_0000, U64(0x40_0000 + U64(len - (0x40_0000 - base))))
  }

  function FramebufferSpan(addr: nat, size: nat): Span {
    Span(PageDown(addr), PageDown(U64(addr + size + 0xFFF)))
  }

  /** Page number x of the 64-bit space starts in the span. */
  predicate Covers(s: Span, x: nat) {
    s.lo <= x * 4096 < s.hi
  }

  /** A page number above 4 GiB truncates to 20 bits. */
  function Low(x: nat): (p: nat)
    ensures p < 0x10_0000
  {
    x % 0x10_0000
  }

  ghost predicate Reaches(s: Span, p: nat) {
    exists x :: Covers(s, x) && Low(x) == p
  }

  /** The 32-bit pages that a span maps. */
  ghost function Pages(s: Span): set<nat> {
    set p: nat | p < 0x10_0000 && Reaches(s, p)
  }

  ghost function MapPages(regions: Map): set<nat>
    decreases |regions|
  {
    if regions == [] then {}
    else MapPages(regions[..|regions| - 1]) + Pages(RegionSpan(regions[|regions| - 1]))
  }

  lemma PagesStep(lo: nat, x: nat)
    requires lo % 4096 == 0 && lo <= x * 4096
    ensures Pages(Span(lo, (x + 1) * 4096)) == Pages(Span(lo, x * 4096)) + {Low(x)}
  {
    var s, s' := Span(lo, x * 4096), Span(lo, (x + 1) * 4096);
    assert forall y :: Covers(s', y) <==> Covers(s, y) || y == x;
    assert Covers(s', x);
    forall p: nat
      ensures Reaches(s', p) <==> Reaches(s, p) || p == Low(x)
    {
    }
  }

  lemma NoPages(s: Span)
    requires s.hi <= s.lo
    ensures Pages(s) == {}
  {
  }

  /** Page x lies at or above 4 MiB and wholly inside r, a RAM region, that is of type 1. */
  predicate RamHolds(r: Region, x: nat) {
    r.kind == 1 && 0x40_0000 <= x * 4096 && r.addr <= x * 4096 && (x + 1) * 4096 <= r.addr + r.len
  }

  /** The guard for a region: rounding its start up does not wrap around, and it ends
      below 2^64; or its start wraps around to 0 and it ends less than a page behind
      2^64. */
  predicate SpanFits(r: Region) {
    r.kind == 1 ==>
      if r.addr + 0xFFF < TWO64 then r.addr + r.len < TWO64
      else TWO64 <= r.addr + r.len < TWO64 + 4096
  }

  lemma AlignedEnd(addr: nat, len: nat)
    requires len >= PageDown(addr + 0xFFF) - addr
    ensures var base := PageDown(addr + 0xFFF);
      base + PageDown(len - (base - addr)) == PageDown(addr + len)
  {
  }

  /** A region that reaches its first page boundary. */
  lemma SpanOfRegion(r: Region)
    requires r.Fits() && r.addr + 0xFFF < TWO64 && r.kind == RAM
    requires r.len >= PageDown(r.addr + 0xFFF) - r.addr
    ensures var base, end := PageDown(r.addr + 0xFFF), U64(PageDown(r.addr + r.len));
      RegionSpan(r) == if base >= 0x40_0000 then Span(base, end)
        else if end <= 0x40_0000 then NOTHING else Span(0x40_0000, end)
  {
    hide U64;
    AlignedEnd(r.addr, r.len);
    hide PageDown;
    var base := PageDown(r.addr + 0xFFF);
    var len := PageDown(r.len - (base - r.addr));
    if base < 0x40_0000 && U64(base + len) > 0x40_0000 {
      Rebased(base, len);
    }
  }

  lemma Rebased(base: nat, len: nat)
    requires base < 0x40_0000 && len < TWO64 && U64(base + len) > 0x40_0000
    ensures U64(0x40_0000 + U64(len - (0x40_0000 - base))) == U64(base + len)
  {
  }

  /** The 64-bit value of a sum of two such values, or of a difference. */
  lemma Truncated(x: int)
    requires 0 <= x + TWO64 && x < 3 * TWO64
    ensures U64(x) == if x < 0 then x + TWO64 else if x < TWO64 then x
                      else if x < 2 * TWO64 then x - TWO64 else x - 2 * TWO64
  {
    if x >= 2 * TWO64 {
      Quotient(x, 2, x - 2 * TWO64, TWO64);
    } else if x >= TWO64 {
      Quotient(x, 1, x - TWO64, TWO64);
    }
  }

  lemma PageOf(x: nat)
    ensures PageDown(x) == x / 4096 * 4096 <= x < (x / 4096 + 1) * 4096
  {
  }

  lemma LastPage(x: nat)
    requires TWO64 - 4096 <= x < TWO64
    ensures PageDown(x) == TWO64 - 4096
  {
    Quotient(x, TWO64 / 4096 - 1, x - (TWO64 - 4096), 4096);
  }

  /** A region that does not: its aligned length wraps around. */
  lemma RegionTooSmall(r: Region, x: nat)
    requires r.Fits() && r.addr + 0xFFF < TWO64 && r.kind == RAM
    requires r.len < PageDown(r.addr + 0xFFF) - r.addr
    ensures SpanFits(r) && !Covers(RegionSpan(r), x) && !RamHolds(r, x)
  {
    hide U64, PageDown;
    var base := PageDown(r.addr + 0xFFF);
    var len := U64(r.len - (base - r.addr));
    Truncated(r.addr + 0xFFF);
    Truncated(r.len - (base - r.addr));
    LastPage(len);
    PageOf(r.addr + 0xFFF);
    Truncated(base + (TWO64 - 4096));
  }

  /** A region in the last page of the address space: its start is rounded to 0. */
  lemma RegionAtTop(r: Region)
    requires r.Fits() && r.addr + 0xFFF >= TWO64 && r.kind == RAM
    ensures var end := PageDown(U64(r.addr + r.len));
      RegionSpan(r) == if end <= 0x40_0000 then NOTHING else Span(0x40_0000, end)
  {
    assert PageDown(U64(r.addr + 0xFFF)) == 0;
    hide U64, PageDown;
    RebasedFromZero(PageDown(U64(r.len - (0 - r.addr))));
  }

  lemma RebasedFromZero(len: nat)
    requires len < TWO64
    ensures U64(len) == len
    ensures len > 0x40_0000 ==> U64(0x40_0000 + U64(len - 0x40_0000)) == len
  {
  }

  lemma RegionAtTopExact(r: Region, x: nat)
    requires r.Fits() && SpanFits(r) && r.addr + 0xFFF >= TWO64 && r.kind == RAM
    ensures !Covers(RegionSpan(r), x) && !RamHolds(r, x)
  {
    RegionAtTop(r);
    hide RegionSpan;
  }

  /** Rounding up a start and down an end leaves the same whole pages. */
  lemma WholePages(addr: nat, end: nat, x: nat)
    ensures addr <= x * 4096 <==> PageDown(addr + 0xFFF) <= x * 4096
    ensures (x + 1) * 4096 <= end <==> x * 4096 < PageDown(end)
  {
    PageOf(addr + 0xFFF);
    PageOf(end);
  }

  lemma RegionInsideExact(r: Region, x: nat)
    requires r.Fits() && SpanFits(r) && r.addr + 0xFFF < TWO64 && r.kind == RAM
    requires r.len >= PageDown(r.addr + 0xFFF) - r.addr
    ensures Covers(RegionSpan(r), x) <==> RamHolds(r, x)
  {
    hide RegionSpan, U64, PageDown;
    SpanOfRegion(r);
    WholePages(r.addr, r.addr + r.len, x);
  }

  /** Under the guard the region loop covers exactly the pages at or above 4 MiB that
      lie wholly inside a RAM region; a region that holds no page covers none,
      although its aligned length wraps around. */
  lemma RegionExact(r: Region, x: nat)
    requires r.Fits() && SpanFits(r)
    ensures Covers(RegionSpan(r), x) <==> RamHolds(r, x)
  {
    hide RegionSpan, SpanFits, PageDown;
    if r.kind != RAM {
      NoSpan(r, x);
    } else if r.addr + 0xFFF >= TWO64 {
      RegionAtTopExact(r, x);
    } else if r.len >= PageDown(r.addr + 0xFFF) - r.addr {
      RegionInsideExact(r, x);
    } else {
      RegionTooSmall(r, x);
    }
  }

  lemma NoSpan(r: Region, x: nat)
    requires r.kind != RAM
    ensures !Covers(RegionSpan(r), x)
  {
  }

  /** Without it, it does not. */
  lemma RegionExactly(r: Region)
    requires r.Fits()
    ensures (forall x: nat :: Covers(RegionSpan(r), x) <==> RamHolds(r, x)) <==> SpanFits(r)
  {
    if SpanFits(r) {
      forall x: nat
        ensures Covers(RegionSpan(r), x) <==> RamHolds(r, x)
      {
        RegionExact(r, x);
      }
    } else {
      var x := RegionMissed(r);
    }
  }

  lemma RegionMissed(r: Region) returns (x: nat)
    requires r.Fits() && !SpanFits(r)
    ensures Covers(RegionSpan(r), x) <==> !RamHolds(r, x)
  {
    if r.addr + 0xFFF >= TWO64 {
      x := TopMissed(r);
    } else {
      x := EndMissed(r);
    }
  }

  lemma TopMissed(r: Region) returns (x: nat)
    requires r.Fits() && !SpanFits(r) && r.addr + 0xFFF >= TWO64
    ensures Covers(RegionSpan(r), x) <==> !RamHolds(r, x)
  {
    RegionAtTop(r);
    hide RegionSpan;
    x := if r.addr + r.len < TWO64 then 1024 else TWO64 / 4096;
  }

  lemma EndMissed(r: Region) returns (x: nat)
    requires r.Fits() && !SpanFits(r) && r.addr + 0xFFF < TWO64
    ensures Covers(RegionSpan(r), x) <==> !RamHolds(r, x)
  {
    hide RegionSpan, U64;
    SpanOfRegion(r);
    var base := PageDown(r.addr + 0xFFF);
    assert U64(PageDown(r.addr + r.len)) <= r.addr by { WrappedEnd(r); }
    x := if base >= 0x40_0000 then base / 4096 else 1024;
  }

  lemma WrappedEnd(r: Region)
    requires r.Fits() && TWO64 <= r.addr + r.len
    ensures U64(PageDown(r.addr + r.len)) <= r.addr
  {
    var end := PageDown(r.addr + r.len);
    assert U64(end) == end - TWO64;
  }

  /** Page x and the bytes [addr, addr + size) have a byte in common. */
  predicate Intersects(addr: nat, size: nat, x: nat) {
    size > 0 && addr < (x + 1) * 4096 && x * 4096 < addr + size
  }

  /** The guard for a buffer: rounding its end up does not wrap around; an empty buffer
      must start on a page boundary, or have its end wrap around to 0. */
  predicate BufferFits(addr: nat, size: nat) {
    if size > 0 then addr + size + 0xFFF < TWO64 else addr % 4096 == 0 || addr + 0xFFF >= TWO64
  }

  /** The framebuffer loop covers exactly the pages that intersect the buffer if and
      only if the guard holds: an empty buffer that starts inside a page still gets
      that page. */
  lemma FramebufferExact(addr: nat, size: nat)
    requires addr < TWO64 && size < TWO64
    ensures (forall x: nat :: Covers(FramebufferSpan(addr, size), x) <==> Intersects(addr, size, x))
            <==> BufferFits(addr, size)
  {
    var end := U64(addr + size + 0xFFF);
    if BufferFits(addr, size) {
      forall x: nat
        ensures Covers(FramebufferSpan(addr, size), x) <==> Intersects(addr, size, x)
      {
        BufferCovered(addr, size, x);
      }
    } else {
      BufferMissed(addr, size, if size > 0x8000_0000_0000_0000 then addr / 4096 + 1 else addr / 4096);
    }
  }

  lemma BufferCovered(addr: nat, size: nat, x: nat)
    requires addr < TWO64 && size < TWO64 && BufferFits(addr, size)
    ensures Covers(FramebufferSpan(addr, size), x) <==> Intersects(addr, size, x)
  {
    hide U64, PageDown;
    Truncated(addr + size + 0xFFF);
    PageOf(addr);
    WholePages(addr + size, addr + size + 0xFFF, x);
    PageOf(U64(addr + size + 0xFFF));
  }

  lemma BufferMissed(addr: nat, size: nat, x: nat)
    requires addr < TWO64 && size < TWO64 && !BufferFits(addr, size)
    requires x == if size > 0x8000_0000_0000_0000 then addr / 4096 + 1 else addr / 4096
    ensures Covers(FramebufferSpan(addr, size), x) <==> !Intersects(addr, size, x)
  {
    hide U64, PageDown;
    Truncated(addr + size + 0xFFF);
    PageOf(addr);
  }
}

/** The object of src/kernel/paging.cpp. */
module Paging {
  import opened Machine
  import opened MapEntries
  import opened MemoryMap
  import opened PageWalk
  import opened PageSpans

  /** sizeof(IDTEntry) * 256 */
  const IDT_BYTES: nat := 2048

  const FIRST_4M := Span(0, 0x40_0000)

  /** Memory with the first table filled. */
  function IdentityTable(m: seq<Word>): (t: seq<Word>)
    requires |m| == MEMORY_WORDS
    ensures |t| == MEMORY_WORDS
    ensures forall w :: TableWord(0) <= w < TableWord(1) ==> t[w] == (w - TableWord(0)) * 4096 + 7
    ensures forall w :: 0 <= w < TableWord(0) || TableWord(1) <= w < MEMORY_WORDS ==> t[w] == m[w]
  {
    m[..TableWord(0)] + seq(1024, i requires 0 <= i < 1024 => i * 4096 + 7) + m[TableWord(1)..]
  }

  /** Memory after paging_init_full has set up directory and first table. */
  function FirstTables(m: seq<Word>): (t: seq<Word>)
    requires |m| == MEMORY_WORDS
    ensures |t| == MEMORY_WORDS
    ensures forall w :: 0 <= w < DIRECTORY || TableWord(1) <= w < MEMORY_WORDS ==> t[w] == m[w]
  {
    IdentityTable(ZeroedPage(m, DIRECTORY))[DIRECTORY := TableAddr(0) + 7]
  }

  /** The memory map lies outside of the directory and of every table, and its last
      entry ends below 4 GiB. */
  predicate MapApart(addr: nat, length: nat) {
    && addr % 4 == 0 && addr + length + ENTRY <= TWO32
    && (addr + length + ENTRY <= 0x20_0000 || addr >= TableAddr(1024))
  }

  lemma FirstPages(p: nat)
    ensures p in Pages(FIRST_4M) <==> p < 1024
  {
    if p < 1024 {
      assert Covers(FIRST_4M, p) && Low(p) == p;
    }
  }

  class PageTables {
    /** Physical memory in 32-bit words. */
    const mem: array<Word>
    var pageDirectory: nat
    var nextPt: nat
    ghost var order: seq<nat>
    ghost var mapped: set<nat>

    ghost predicate Valid()
      reads this, mem
    {
      && mem.Length == MEMORY_WORDS
      && pageDirectory == 0x20_0000
      && nextPt == TableAddr(|order|)
      && Tables(mem[..], order, mapped)
    }

    /** Memory outside the directory and the allocated tables is as in m, and the
        tables that were allocated before are still where they were. */
    ghost predicate Confined(m: seq<Word>, before: seq<nat>)
      reads this, mem
    {
      && |m| == mem.Length == MEMORY_WORDS
      && before <= order
      && forall w :: 0 <= w < MEMORY_WORDS && (w < DIRECTORY || w >= TableWord(|order|)) ==> mem[w] == m[w]
    }

    constructor (memory: array<Word>)
      requires memory.Length == MEMORY_WORDS
      ensures mem == memory && pageDirectory == 0 && nextPt == 0x20_2000 && order == [] && mapped == {}
    {
      mem := memory;
      pageDirectory := 0;
      nextPt := 0x20_2000;
      order := [];
      mapped := {};
    }

    static lemma IndexSplit(phys: nat)
      requires phys % 4096 == 0
      ensures phys / 0x40_0000 % 1024 == Low(phys / 4096) / 1024
      ensures phys / 4096 % 1024 == Low(phys / 4096) % 1024
      ensures WithFlags(phys) % 0x1_0000_0000 == Low(phys / 4096) * 4096 + 7
    {
      var page := phys / 4096;
      var high, p := page / 0x10_0000, Low(page);
      IndexesOfParts(phys, high, p / 1024, p % 1024);
    }

    static lemma IndexesOfParts(phys: nat, high: nat, d: nat, j: nat)
      requires d < 1024 && j < 1024 && phys == high * 0x1_0000_0000 + d * 0x40_0000 + j * 4096
      ensures phys / 0x40_0000 % 1024 == d
      ensures phys / 4096 % 1024 == j
      ensures WithFlags(phys) % 0x1_0000_0000 == (d * 1024 + j) * 4096 + 7
    {
      Quotient(phys, high * 1024 + d, j * 4096, 0x40_0000);
      Quotient(high * 1024 + d, high, d, 1024);
      Quotient(phys, high * 0x10_0000 + d * 1024 + j, 0, 4096);
      Quotient(high * 0x10_0000 + d * 1024 + j, high * 1024 + d, j, 1024);
      Quotient(phys, high * 0x2000_0000 + d * 0x8_0000 + j * 512, 0, 8);
      Quotient(phys + 7, high, d * 0x40_0000 + j * 4096 + 7, 0x1_0000_0000);
    }

    /** The body of both mapping loops. */
    method MapPage(phys: nat)
      requires Valid() && phys % 4096 == 0
      modifies this, mem
      ensures Valid() && Confined(old(mem[..]), old(order))
      ensures mapped == old(mapped) + {Low(phys / 4096)}
    {
      hide Tables, Pde, Pte, Low, WithFlags;
      IndexSplit(phys);
      var pdIdx := phys / 0x40_0000 % 1024;
      var ptIdx := phys / 4096 % 1024;
      ghost var k := EnsureTable(pdIdx);
      var pt := mem[pageDirectory / 4 + pdIdx] / 4096 * 4096;
      assert pt / 4 == TableWord(k);
      EntryWritten(mem[..], order, mapped, k, Low(phys / 4096));
      mem[pt / 4 + ptIdx] := WithFlags(phys) % 0x1_0000_0000;
      mapped := mapped + {Low(phys / 4096)};
    }

    /** Its first part: a directory index without a table gets one. */
    method EnsureTable(pdIdx: nat) returns (ghost k: nat)
      requires Valid() && pdIdx < 1024
      modifies this, mem
      ensures Valid() && Confined(old(mem[..]), old(order)) && mapped == old(mapped)
      ensures k < |order| && order[k] == pdIdx && mem[pageDirectory / 4 + pdIdx] == TableAddr(k) + 7
    {
      hide Tables;
      ghost var _ := DirectoryEntry(mem[..], order, mapped, pdIdx);
      if mem[pageDirectory / 4 + pdIdx] % 2 == 0 {
        AddTable(pdIdx);
      }
      k := DirectoryEntry(mem[..], order, mapped, pdIdx);
    }

    /** A directory entry is present exactly when a table serves its index. */
    static lemma DirectoryEntry(m: seq<Word>, order: seq<nat>, mapped: set<nat>, d: nat) returns (k: nat)
      requires Tables(m, order, mapped) && d < 1024
      ensures |m| == MEMORY_WORDS && |order| <= 1024
      ensures d in order <==> m[DIRECTORY + d] % 2 == 1
      ensures d in order ==> k < |order| && order[k] == d && m[DIRECTORY + d] == TableAddr(k) + 7
    {
      if d in order {
        k :| 0 <= k < |order| && order[k] == d;
        assert Pde(m, order[k]) == TableAddr(k) + 7;
      } else {
        k := 0;
        assert Pde(m, d) == 0;
      }
    }

    /** Take the next page for a table, zero it and enter it in the directory. */
    method AddTable(pdIdx: nat)
      requires Valid() && pdIdx < 1024 && pdIdx !in order
      modifies this, mem
      ensures Valid() && Confined(old(mem[..]), old(order))
      ensures order == old(order) + [pdIdx] && mapped == old(mapped)
    {
      RoomForTable(order, pdIdx);
      hide Tables, OrderOk, ZeroedPage, WithFlags, WithTable;
      ghost var n := |order|;
      FreshTable(mem[..], order, mapped, pdIdx);
      EnterTable(nextPt, n, pdIdx);
      nextPt := nextPt + 0x1000;
      order := order + [pdIdx];
    }

    /** Its stores. */
    method EnterTable(pt: nat, ghost n: nat, pdIdx: nat)
      requires mem.Length == MEMORY_WORDS && pageDirectory == 0x20_0000
      requires n < 1024 && pt == TableAddr(n) && pdIdx < 1024
      modifies mem
      ensures mem[..] == WithTable(old(mem[..]), n, pdIdx)
    {
      hide ZeroedPage, WithFlags;
      ZeroPage(pt, TableWord(n));
      TableFlags(n);
      mem[pageDirectory / 4 + pdIdx] := WithFlags(pt);
    }

    static lemma TableFlags(n: nat)
      ensures WithFlags(TableAddr(n)) == TableAddr(n) + 7
    {
      Quotient(TableAddr(n), 0x4_0200 + 512 * n, 0, 8);
    }

    /** The loop that zeroes a directory or a table. */
    method ZeroPage(page: nat, ghost first: nat)
      requires mem.Length == MEMORY_WORDS && page == 4 * first && first + 1024 <= MEMORY_WORDS
      modifies mem
      ensures mem[..] == ZeroedPage(old(mem[..]), first)
    {
      for i := 0 to 1024
        invariant forall w :: first <= w < first + i ==> mem[w] == 0
        invariant forall w :: 0 <= w < first || first + i <= w < MEMORY_WORDS ==> mem[w] == old(mem[w])
      {
        mem[page / 4 + i] := 0;
      }
      hide ZeroedPage;
      SameMemory(mem[..], ZeroedPage(old(mem[..]), first));
    }

    static lemma SameMemory(m: seq<Word>, m': seq<Word>)
      requires |m| == |m'| && forall w :: 0 <= w < |m| ==> m[w] == m'[w]
      ensures m == m'
    {
    }

    /** The loop of paging_map_framebuffer and of the region map. */
    method MapSpan(lo: nat, hi: nat)
      requires Valid() && lo % 4096 == 0 && hi % 4096 == 0 && hi < TWO64
      modifies this, mem
      ensures Valid() && Confined(old(mem[..]), old(order))
      ensures mapped == old(mapped) + Pages(Span(lo, hi))
    {
      hide Tables, Pages, Low;
      var phys := lo;
      NoPages(Span(lo, lo));
      assert phys == phys / 4096 * 4096;
      while phys < hi
        invariant Valid() && Confined(old(mem[..]), old(order))
        invariant lo <= phys && phys % 4096 == 0 && (phys <= hi || phys == lo)
        invariant mapped == old(mapped) + Pages(Span(lo, phys))
        decreases hi - phys
      {
        MapPage(phys);
        PagesStep(lo, phys / 4096);
        assert (phys / 4096 + 1) * 4096 == phys + 4096;
        phys := U64(phys + 0x1000);
      }
      if hi < lo {
        NoPages(Span(lo, hi));
      }
    }

    /** paging_map_framebuffer */
    method MapFramebuffer(addr: nat, size: nat)
      requires addr < TWO64 && size < TWO64
      requires pageDirectory == 0 || Valid()
      modifies this, mem
      ensures old(pageDirectory) == 0 ==>
        && pageDirectory == 0 && nextPt == old(nextPt) && mem[..] == old(mem[..])
        && order == old(order) && mapped == old(mapped)
      ensures old(pageDirectory) != 0 ==>
        && Valid() && Confined(old(mem[..]), old(order))
        && mapped == old(mapped) + Pages(FramebufferSpan(addr, size))
    {
      if pageDirectory == 0 {
        return;
      }
      var alignedBase := PageDown(addr);
      var alignedEnd := PageDown(U64(addr + size + 0xFFF));
      MapSpan(alignedBase, alignedEnd);
    }

    /** paging_init_full up to the control register writes, on any memory, for a memory
        map outside of the tables. idtStart is the address of idt_entries. */
    method Init(mmapAddr: nat, mmapLength: nat, idtStart: nat)
      requires mem.Length == MEMORY_WORDS && nextPt == 0x20_2000
      requires MapApart(mmapAddr, mmapLength) && idtStart + IDT_BYTES <= 0xFFFF_F000
      modifies this, mem
      ensures Valid() && Confined(old(mem[..]), [0])
      ensures mapped == Pages(FIRST_4M) + MapPages(Decoded(old(mem[..]), mmapAddr, mmapAddr + mmapLength))
    {
      hide Tables, Pages, Decoded;
      ghost var m0 := mem[..];
      InitFirstTable();
      MapKept(m0, mem[..], order, mmapAddr, mmapLength, mmapAddr);
      MapRegions(mmapAddr, mmapLength);
      UserFlags(0x10_0000, 0x40_0000);
      UserFlags(idtStart / 4096 * 4096, idtStart + IDT_BYTES);
    }

    method InitFirstTable()
      requires mem.Length == MEMORY_WORDS && nextPt == 0x20_2000
      modifies this, mem
      ensures Valid() && Confined(old(mem[..]), [0]) && order == [0]
      ensures mapped == Pages(FIRST_4M)
    {
      hide Tables, Pages, ZeroedPage, IdentityTable;
      FirstTable(mem[..]);
      pageDirectory := 0x20_0000;
      ZeroPage(pageDirectory, DIRECTORY);
      var firstPt := 0x20_1000;
      FillFirstTable(firstPt);
      mem[pageDirectory / 4] := WithFlags(firstPt);
      assert mem[..] == FirstTables(old(mem[..]));
      hide FirstTables;
      order := [0];
      mapped := Pages(FIRST_4M);
    }

    /** The loop that fills the first table. */
    method FillFirstTable(firstPt: nat)
      requires mem.Length == MEMORY_WORDS && firstPt == TableAddr(0)
      modifies mem
      ensures mem[..] == IdentityTable(old(mem[..]))
    {
      hide IdentityTable, WithFlags;
      for i := 0 to 1024
        invariant forall w :: TableWord(0) <= w < TableWord(0) + i ==> mem[w] == (w - TableWord(0)) * 4096 + 7
        invariant forall w :: 0 <= w < TableWord(0) || TableWord(0) + i <= w < MEMORY_WORDS ==> mem[w] == old(mem[w])
      {
        PageFlags(i);
        mem[firstPt / 4 + i] := WithFlags(i * 4096);
      }
      SameMemory(mem[..], IdentityTable(old(mem[..])));
    }

    static lemma PageFlags(p: nat)
      ensures WithFlags(p * 4096) == p * 4096 + 7
    {
    }

    static lemma FirstTable(m: seq<Word>)
      requires |m| == MEMORY_WORDS
      ensures Tables(FirstTables(m), [0], Pages(FIRST_4M))
    {
      forall p: nat
        ensures p in Pages(FIRST_4M) <==> p < 1024
      {
        FirstPages(p);
      }
      hide Pages, ZeroedPage, IdentityTable;
      var m' := FirstTables(m);
      forall j | 0 <= j < 1024
        ensures Pte(m', 0, j) == j * 4096 + 7
      {
      }
    }

    /** The region loop: every RAM region, in the order of the map. It reads the map
        while it stores tables. */
    method MapRegions(mmapAddr: nat, mmapLength: nat)
      requires Valid() && MapApart(mmapAddr, mmapLength)
      modifies this, mem
      ensures Valid() && Confined(old(mem[..]), old(order))
      ensures mapped == old(mapped) + MapPages(Decoded(old(mem[..]), mmapAddr, mmapAddr + mmapLength))
    {
      hide Tables, Pages, RegionAt, Decoded;
      ghost var m0, done: Map := mem[..], [];
      var entry, end := mmapAddr, mmapAddr + mmapLength;
      NoRegions(m0, entry, end);
      while entry < end
        invariant Valid() && Confined(m0, old(order)) && mmapAddr <= entry
        invariant done + Decoded(m0, entry, end) == Decoded(m0, mmapAddr, end)
        invariant mapped == old(mapped) + MapPages(done)
        decreases end - entry
      {
        var r := ReadEntry(mem, entry);
        FewTables(mem[..], order, mapped);
        EntryKept(m0, mem[..], order, mmapAddr, mmapLength, entry);
        RegionStep(m0, done, entry, end);
        MapRegion(r);
        done := done + [r];
        entry := entry + 24;
      }
      DecodedFirst(m0, entry, end);
      assert done + Decoded(m0, entry, end) == done;
    }

    static lemma {:induction false} MapKept(m0: seq<Word>, m: seq<Word>, order: seq<nat>,
                                            addr: nat, length: nat, at: nat)
      requires |m0| == |m| == MEMORY_WORDS && |order| <= 1024
      requires forall w :: 0 <= w < MEMORY_WORDS && (w < DIRECTORY || w >= TableWord(|order|)) ==> m[w] == m0[w]
      requires MapApart(addr, length) && addr <= at
      ensures Decoded(m, at, addr + length) == Decoded(m0, at, addr + length)
      decreases if at < addr + length then addr + length - at else 0
    {
      hide RegionAt;
      if at < addr + length {
        EntryKept(m0, m, order, addr, length, at);
        MapKept(m0, m, order, addr, length, at + 24);
      }
    }

    static lemma FewTables(m: seq<Word>, order: seq<nat>, mapped: set<nat>)
      requires Tables(m, order, mapped)
      ensures |order| <= 1024
    {
    }

    static lemma NoRegions(m: seq<Word>, at: nat, end: nat)
      requires |m| == MEMORY_WORDS && end + ENTRY <= TWO32
      ensures MapPages([]) == {} && [] + Decoded(m, at, end) == Decoded(m, at, end)
    {
      hide Decoded;
      assert forall s: seq<Region> :: [] + s == s;
    }

    static lemma MapPagesAppend(done: Map, r: Region)
      requires r.Fits()
      ensures MapPages(done + [r]) == MapPages(done) + Pages(RegionSpan(r))
    {
      hide Pages, RegionSpan;
      assert (done + [r])[..|done|] == done;
    }

    static lemma RegionStep(m: seq<Word>, done: Map, at: nat, end: nat)
      requires |m| == MEMORY_WORDS && at < end && end + ENTRY <= TWO32
      ensures var r := RegionAt(m, at);
        && done + Decoded(m, at, end) == (done + [r]) + Decoded(m, at + 24, end)
        && MapPages(done + [r]) == MapPages(done) + Pages(RegionSpan(r))
    {
      hide RegionAt, Decoded, MapPages, Pages, RegionSpan;
      DecodedFirst(m, at, end);
      MapPagesAppend(done, RegionAt(m, at));
    }

    /** No table has been stored over an entry of the map. */
    static lemma EntryKept(m0: seq<Word>, m: seq<Word>, order: seq<nat>, addr: nat, length: nat, at: nat)
      requires |m0| == |m| == MEMORY_WORDS && |order| <= 1024
      requires forall w :: 0 <= w < MEMORY_WORDS && (w < DIRECTORY || w >= TableWord(|order|)) ==> m[w] == m0[w]
      requires MapApart(addr, length) && addr <= at < addr + length
      ensures RegionAt(m, at) == RegionAt(m0, at)
    {
      hide RegionAt;
      RegionSame(m0, m, at);
    }

    method MapRegion(r: Region)
      requires Valid()
      modifies this, mem
      ensures Valid() && Confined(old(mem[..]), old(order))
      ensures mapped == old(mapped) + Pages(RegionSpan(r))
    {
      hide Tables, Pages, U64, PageDown;
      NoPages(NOTHING);
      if r.kind == RAM {
        var alignedBase := PageDown(U64(r.addr + 0xFFF));
        var alignedLen := PageDown(U64(r.len - (alignedBase - r.addr)));
        if alignedBase < 0x40_0000 {
          if U64(alignedBase + alignedLen) <= 0x40_0000 {
            return;
          }
          alignedLen := U64(alignedLen - (0x40_0000 - alignedBase));
          alignedBase := 0x40_0000;
        }
        EndAligned(alignedBase, alignedLen);
        MapSpan(alignedBase, U64(alignedBase + alignedLen));
      }
    }

    static lemma EndAligned(base: nat, len: nat)
      requires base % 4096 == 0 && len % 4096 == 0 && base < TWO64 && len < TWO64
      ensures U64(base + len) % 4096 == 0
    {
      hide U64;
      Truncated(base + len);
    }

    /** A pass that adds the USER flag to the present pages of a range: it changes
        nothing, because each present entry already carries flags 7. */
    method UserFlags(start: nat, end: nat)
      requires Valid() && start % 4096 == 0 && end <= 0xFFFF_F000
      modifies mem
      ensures Valid() && mem[..] == old(mem[..])
    {
      hide Tables;
      var addr := start;
      while addr < end
        invariant Valid() && mem[..] == old(mem[..])
        invariant addr % 4096 == 0 && (addr < end + 4096 || addr == start)
        decreases end - addr
      {
        UserFlag(addr);
        addr := addr + 0x1000;
      }
    }

    method UserFlag(addr: Word)
      requires Valid()
      modifies mem
      ensures Valid() && mem[..] == old(mem[..])
    {
      hide Tables, WithUser;
      UserEntry(mem[..], order, mapped, addr);
      assert addr / 0x40_0000 % 1024 == addr / 0x40_0000;
      var pde := mem[pageDirectory / 4 + addr / 0x40_0000 % 1024];
      if pde % 2 == 1 {
        var w := pde / 4096 * 1024 + addr / 4096 % 1024;
        if mem[w] % 2 == 1 {
          mem[w] := WithUser(mem[w]);
        }
      }
    }

    /** A present table entry, reached through a present directory entry, has the USER flag. */
    static lemma UserEntry(m: seq<Word>, order: seq<nat>, mapped: set<nat>, addr: Word)
      requires |m| == MEMORY_WORDS && Tables(m, order, mapped)
      ensures var pde := m[DIRECTORY + addr / 0x40_0000];
        pde % 2 == 1 ==>
          var pte := m[pde / 4096 * 1024 + addr / 4096 % 1024];
          pte % 2 == 1 ==> pte % 4096 == 7 && WithUser(pte) == pte
    {
      hide Tables, WithUser;
      WalkIsIdentity(m, order, mapped, addr);
      var pde := m[DIRECTORY + addr / 0x40_0000];
      if pde % 2 == 1 {
        FlagsHaveUser(m[pde / 4096 * 1024 + addr / 4096 % 1024]);
      }
    }

    static lemma FlagsHaveUser(e: Word)
      ensures e % 4096 == 7 ==> WithUser(e) == e
    {
    }
  }
}

/** What the processor sees after boot. */
module BootMapping {
  import opened Machine
  import opened MapEntries
  import opened MemoryMap
  import opened PageWalk
  import opened PageSpans
  import opened Paging

  /** Some page of some RAM region truncates to the 32-bit page p. */
  ghost predicate RamPage(regions: Map, p: nat) {
    exists i, x :: 0 <= i < |regions| && RamHolds(regions[i], x) && Low(x) == p
  }

  ghost predicate FramebufferPage(addr: nat, size: nat, p: nat) {
    exists x :: Intersects(addr, size, x) && Low(x) == p
  }

  lemma {:induction false} MapPagesExact(regions: Map, p: nat)
    requires forall i :: 0 <= i < |regions| ==> SpanFits(regions[i])
    ensures p in MapPages(regions) <==> RamPage(regions, p)
    decreases |regions|
  {
    if regions != [] {
      var n := |regions| - 1;
      var front: Map := regions[..n];
      MapPagesExact(front, p);
      forall x: nat
        ensures Covers(RegionSpan(regions[n]), x) <==> RamHolds(regions[n], x)
      {
        RegionExact(regions[n], x);
      }
      hide RegionSpan, Covers, RamHolds, Low;
      assert RamPage(regions, p) <==> RamPage(front, p) || Reaches(RegionSpan(regions[n]), p);
      assert forall q :: q in Pages(RegionSpan(regions[n])) <==> q < 0x10_0000 && Reaches(RegionSpan(regions[n]), q);
      assert Reaches(RegionSpan(regions[n]), p) ==> p < 0x10_0000;
    }
  }

  /** Where an address goes after boot. */
  ghost function Expected(regions: Map, fbAddr: nat, fbSize: nat, addr: Word): Translation {
    if addr < 0x40_0000 || RamPage(regions, addr / 4096) || FramebufferPage(fbAddr, fbSize, addr / 4096)
    then To(addr, 7, 7) else NotPresent
  }

  lemma MappedTranslation(m: seq<Word>, order: seq<nat>, regions: Map, fbAddr: nat, fbSize: nat, addr: Word)
    requires Tables(m, order, Pages(FIRST_4M) + MapPages(regions) + Pages(FramebufferSpan(fbAddr, fbSize)))
    requires forall i :: 0 <= i < |regions| ==> SpanFits(regions[i])
    requires fbAddr < TWO64 && fbSize < TWO64 && BufferFits(fbAddr, fbSize)
    ensures Walk(m, addr) == Expected(regions, fbAddr, fbSize, addr)
  {
    var p := addr / 4096;
    WalkIsIdentity(m, order, Pages(FIRST_4M) + MapPages(regions) + Pages(FramebufferSpan(fbAddr, fbSize)), addr);
    FirstPages(p);
    MapPagesExact(regions, p);
    FramebufferExact(fbAddr, fbSize);
    hide Tables, Walk, Covers, Intersects, FramebufferSpan, Low, MapPages, BufferFits, RamPage;
    assert Reaches(FramebufferSpan(fbAddr, fbSize), p) <==> FramebufferPage(fbAddr, fbSize, p);
    assert p in Pages(FramebufferSpan(fbAddr, fbSize)) <==> FramebufferPage(fbAddr, fbSize, p);
  }

  /** The guards under which the mapped pages are those of RAM and framebuffer. */
  ghost predicate SpansFit(regions: Map, fbAddr: nat, fbSize: nat) {
    (forall i :: 0 <= i < |regions| ==> SpanFits(regions[i])) && BufferFits(fbAddr, fbSize)
  }

  /** The paging calls of kernel_main, on any memory; without a framebuffer tag fbAddr
      and fbSize are 0. Afterwards a 32-bit address translates to itself, with flags 7
      at both levels, exactly when its page is in one of the mapped spans. Under the
      guards these are the first 4 MiB, the pages of RAM above 4 MiB and the pages of
      the framebuffer, where pages beyond 4 GiB count modulo 4 GiB. */
  method BootTranslation(paging: PageTables, mmapAddr: nat, mmapLength: nat, idtStart: nat,
                         fbFound: bool, fbAddr: nat, fbSize: nat)
    requires paging.mem.Length == MEMORY_WORDS && paging.nextPt == 0x20_2000
    requires MapApart(mmapAddr, mmapLength) && idtStart + IDT_BYTES <= 0xFFFF_F000
    requires fbAddr < TWO64 && fbSize < TWO64 && (!fbFound ==> fbAddr == 0 && fbSize == 0)
    modifies paging, paging.mem
    ensures paging.Valid() && paging.Confined(old(paging.mem[..]), [0])
    ensures var regions := Decoded(old(paging.mem[..]), mmapAddr, mmapAddr + mmapLength);
      && (forall addr: Word :: Walk(paging.mem[..], addr) ==
           if addr / 4096 in Pages(FIRST_4M) + MapPages(regions) + Pages(FramebufferSpan(fbAddr, fbSize))
           then To(addr, 7, 7) else NotPresent)
      && (SpansFit(regions, fbAddr, fbSize) ==>
           forall addr: Word :: Walk(paging.mem[..], addr) == Expected(regions, fbAddr, fbSize, addr))
  {
    hide Tables, Pages, MapPages, FramebufferSpan, Walk, Expected, Decoded;
    ghost var regions := Decoded(paging.mem[..], mmapAddr, mmapAddr + mmapLength);
    paging.Init(mmapAddr, mmapLength, idtStart);
    if fbFound {
      paging.MapFramebuffer(fbAddr, fbSize);
    } else {
      EmptyBuffer();
    }
    assert paging.mapped == Pages(FIRST_4M) + MapPages(regions) + Pages(FramebufferSpan(fbAddr, fbSize));
    forall addr: Word
      ensures Walk(paging.mem[..], addr) == if addr / 4096 in paging.mapped then To(addr, 7, 7) else NotPresent
      ensures SpansFit(regions, fbAddr, fbSize) ==>
        Walk(paging.mem[..], addr) == Expected(regions, fbAddr, fbSize, addr)
    {
      WalkIsIdentity(paging.mem[..], paging.order, paging.mapped, addr);
      if SpansFit(regions, fbAddr, fbSize) {
        MappedTranslation(paging.mem[..], paging.order, regions, fbAddr, fbSize, addr);
      }
    }
  }

  lemma EmptyBuffer()
    ensures Pages(FramebufferSpan(0, 0)) == {}
  {
    NoPages(FramebufferSpan(0, 0));
  }

  /** Mapping more pages keeps every earlier translation. */
  lemma TranslationsKept(m: seq<Word>, order: seq<nat>, mapped: set<nat>,
                         m': seq<Word>, order': seq<nat>, mapped': set<nat>, addr: Word)
    requires Tables(m, order, mapped) && Tables(m', order', mapped') && mapped <= mapped'
    ensures Walk(m, addr) != NotPresent ==> Walk(m', addr) == Walk(m, addr)
  {
    WalkIsIdentity(m, order, mapped, addr);
    WalkIsIdentity(m', order', mapped', addr);
  }
}
