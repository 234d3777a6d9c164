/** Sizes and wrap-around arithmetic of the 32-bit machine. */
module Machine {
  const TWO32: nat := 0x1_0000_0000
  const TWO64: nat := 0x1_0000_0000_0000_0000

  /** What a 32-bit word of memory or a 32-bit pointer holds. */
  type Word = w: nat | w < TWO32

  /** 4 GiB of physical memory in 32-bit words. */
  const MEMORY_WORDS: nat := 0x4000_0000

  /** Quotient and remainder of a number given as their sum. */
  lemma Quotient(x: nat, q: nat, r: nat, n: nat)
    requires r < n && x == q * n + r
    ensures x / n == q && x % n == r
  {
    ProductsOrdered(x / n, q, n);
    ProductsOrdered(q, x / n, n);
    assert x == x / n * n + x % n;
  }

  lemma ProductsOrdered(a: nat, b: nat, n: nat)
    ensures a < b ==> a * n + n <= b * n
  {
    assert a < b ==> (a + 1) * n <= b * n;
  }

  /** The value of x as a uint64_t. */
  function U64(x: int): (y: nat)
    ensures y < TWO64
    ensures 0 <= x < TWO64 ==> y == x
  {
    x % 0x1_0000_0000_0000_0000
  }

  /** x & ~0xFFF for a mask as wide as x. */
  function PageDown(x: nat): (y: nat)
    ensures y <= x < y + 4096
    ensures y % 4096 == 0
  {
    x / 4096 * 4096
  }
}

/** An entry of the Multiboot2 memory map (section 3.6.8 of the Multiboot2
    Specification 2.0): 64-bit address and length, 32-bit type. */
module MemoryMap {
  import opened Machine

  /** The type of an entry that describes available RAM. */
  const RAM: nat := 1

  datatype Region = Region(addr: nat, len: nat, kind: nat) {
    predicate Fits() {
      addr < TWO64 && len < TWO64 && kind < TWO32
    }
  }

  type Map = rs: seq<Region> | forall i :: 0 <= i < |rs| ==> rs[i].Fits()
}
