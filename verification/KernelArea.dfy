/** The kernel module's page-rounded memory area: where it lies, what is mapped, marked and filled. */
module KernelArea {
  import opened Machine

  const EIO: int := 5

  // ----- masking with PAGE_MASK -----

  function Pow2(k: nat): (p: nat)
    ensures p >= 1
  {
    if k == 0 then 1 else 2 * Pow2(k - 1)
  }

  /** Bitwise and of unsigned integers. */
  function BitAnd(a: nat, b: nat): nat
    decreases a
  {
    if a == 0 || b == 0 then 0
    else 2 * BitAnd(a / 2, b / 2) + if a % 2 == 1 && b % 2 == 1 then 1 else 0
  }

  lemma AllOnesKeeps(x: nat, w: nat)
    requires x < Pow2(w)
    ensures BitAnd(x, Pow2(w) - 1) == x
  {
    if w > 0 && x > 0 {
      AllOnesKeeps(x / 2, w - 1);
      assert (Pow2(w) - 1) / 2 == Pow2(w - 1) - 1 && (Pow2(w) - 1) % 2 == 1;
    }
  }

  lemma {:induction false} Pow2Monotone(k: nat, w: nat)
    requires k <= w
    ensures Pow2(k) <= Pow2(w)
    decreases w
  {
    if k < w {
      Pow2Monotone(k, w - 1);
    }
  }

  lemma HalfMod(x: nat, p: nat)
    requires p >= 1
    ensures x % (2 * p) == 2 * (x / 2 % p) + x % 2
  {
    var q := x / 2 / p;
    assert x / 2 == p * q + x / 2 % p;
    assert x == (2 * p) * q + (2 * (x / 2 % p) + x % 2);
    ModOfMultiple(2 * p, q, 2 * (x / 2 % p) + x % 2);
  }

  /** In w-bit words, masking with ~(2^k - 1) rounds down to a multiple of 2^k. */
  lemma MaskRoundsDown(x: nat, k: nat, w: nat)
    requires k <= w && x < Pow2(w)
    ensures Pow2(k) <= Pow2(w)
    ensures BitAnd(x, Pow2(w) - Pow2(k)) == x - x % Pow2(k)
    decreases k
  {
    Pow2Monotone(k, w);
    if k == 0 {
      AllOnesKeeps(x, w);
    } else {
      var mask := Pow2(w - 1) - Pow2(k - 1);
      MaskRoundsDown(x / 2, k - 1, w - 1);
      HalfMod(x, Pow2(k - 1));
      BitAndEven(x, mask);
    }
  }

  lemma {:induction false} BitAndEven(x: nat, m: nat)
    ensures BitAnd(x, 2 * m) == 2 * BitAnd(x / 2, m)
  {
    if x != 0 && m != 0 {
      assert 2 * m / 2 == m && 2 * m % 2 == 0;
    }
  }

  // ----- the area -----

  /** The number of pages the module asks for. */
  function NPages(pageSize: nat): nat
    requires 0 < pageSize
  {
    DivBounds(IMAGE_SIZE * 10, pageSize);
    IMAGE_SIZE * 10 / pageSize
  }

  /** The expression of the module: (ptr + PAGE_SIZE - 1) & PAGE_MASK, in w-bit arithmetic. */
  function AreaStart(ptr: nat, k: nat, w: nat): nat
    requires k <= w
  {
    Pow2Monotone(k, w);
    BitAnd(ptr + Pow2(k) - 1, Pow2(w) - Pow2(k))
  }

  lemma RoundUp(ptr: nat, p: nat)
    requires 0 < p
    ensures var x := ptr + p - 1; (x - x % p) % p == 0 && ptr <= x - x % p < ptr + p
  {
    var x := ptr + p - 1;
    assert x == p * (x / p) + x % p;
    ModOfMultiple(p, x / p, 0);
  }

  /** The masked address is the next page boundary. */
  lemma {:induction false} AreaIsNextBoundary(ptr: nat, k: nat, w: nat)
    requires k <= w && ptr + Pow2(k) <= Pow2(w)
    ensures AreaStart(ptr, k, w) % Pow2(k) == 0
    ensures ptr <= AreaStart(ptr, k, w) < ptr + Pow2(k)
  {
    RoundUp(ptr, Pow2(k));
    MaskRoundsDown(ptr + Pow2(k) - 1, k, w);
  }

  /** Page aligned, and with all its pages inside an allocation of npages + 2 pages, wherever that lies. */
  lemma {:induction false} AreaInsideAllocation(ptr: nat, npages: nat, k: nat, w: nat)
    requires k <= w && ptr + (npages + 2) * Pow2(k) <= Pow2(w)
    ensures AreaStart(ptr, k, w) % Pow2(k) == 0
    ensures ptr <= AreaStart(ptr, k, w) < ptr + Pow2(k)
    ensures AreaStart(ptr, k, w) + npages * Pow2(k) <= ptr + (npages + 2) * Pow2(k)
  {
    TwoMorePages(npages, Pow2(k));
    AreaIsNextBoundary(ptr, k, w);
  }

  lemma TwoMorePages(n: nat, p: nat)
    ensures (n + 2) * p == n * p + 2 * p && 0 <= n * p
  {
    MulMonotone(p, 0, n);
  }

  /** The area holds the eight-image ring and its start-up sentinel, for pages up to 256 KiB. */
  lemma RingFitsArea(pageSize: nat)
    requires 0 < pageSize <= 0x4_0000
    ensures 8 * 360960 <= 9 * 360960 <= NPages(pageSize) * pageSize
  {
    DivBounds(IMAGE_SIZE * 10, pageSize);
  }

  /** The test pattern: dead/beef in the upper half, the even index of the pair below. */
  function Pattern(j: nat): UInt32 {
    if j % 2 == 0 then (0xdead_0000 + j) % 0x1_0000_0000 else (0xbeef_0000 + (j - 1)) % 0x1_0000_0000
  }

  /** The addresses of the first n pages of an area. */
  ghost function Pages(area: nat, pageSize: nat, n: nat): set<nat> {
    if n == 0 then {} else Pages(area, pageSize, n - 1) + {area + (n - 1) * pageSize}
  }

  /** They are exactly the page boundaries inside [area, area + n pages). */
  lemma {:induction false} PagesAreBoundaries(area: nat, pageSize: nat, n: nat, page: nat)
    requires 0 < pageSize
    ensures page in Pages(area, pageSize, n) <==>
              area <= page < area + n * pageSize && (page - area) % pageSize == 0
  {
    if n > 0 {
      PagesAreBoundaries(area, pageSize, n - 1, page);
      assert n * pageSize == (n - 1) * pageSize + pageSize;
      OneBoundary(page - area, pageSize, n - 1);
    }
  }

  /** The only multiple of p in [n * p, n * p + p) is n * p. */
  lemma OneBoundary(x: int, p: nat, n: nat)
    requires 0 < p
    ensures n * p <= x < n * p + p && x % p == 0 <==> x == n * p
  {
    if n * p <= x < n * p + p {
      ModOfMultiple(p, n, x - n * p);
      assert p * n + (x - n * p) == x;
    }
  }

  /** Pages of a power of two of at least 8 bytes hold an even number of words. */
  lemma {:induction false} EvenWords(npages: nat, k: nat)
    requires 3 <= k
    ensures npages * Pow2(k) / 4 % 2 == 0 && npages * Pow2(k) % 4 == 0
  {
    var q := Pow2(k - 3);
    assert Pow2(k - 1) == 2 * Pow2(k - 2) == 4 * q;
    Times8(npages, q);
  }

  lemma Times8(n: nat, q: nat)
    ensures n * (8 * q) / 4 % 2 == 0 && n * (8 * q) % 4 == 0
  {
    assert n * (8 * q) == 8 * (n * q);
  }

  class KernelModule {
    // page size 2^k, w-bit addresses
    const k: nat
    const w: nat
    const pageSize: nat
    const npages: nat
    var kmallocPtr: nat
    var kmallocArea: nat
    var bytesInMemory: nat
    var reserved: set<nat>

    constructor (k: nat, w: nat)
      requires 3 <= k <= w
      ensures this.k == k && this.w == w && pageSize == Pow2(k) && npages == 3609600 / pageSize
      ensures reserved == {} && kmallocArea == 0 && bytesInMemory == 0
    {
      this.k, this.w, pageSize, npages := k, w, Pow2(k), NPages(Pow2(k));
      kmallocPtr, kmallocArea, bytesInMemory, reserved := 0, 0, 0, {};
    }

    /**
     * Module load, given the address kmalloc returned and the words of the allocation from the area's start on.
     * Exactly the area's pages are marked and exactly its words are filled.
     */
    method Init(ptr: nat, words: array<UInt32>)
      requires 3 <= k <= w && pageSize == Pow2(k) && ptr + (npages + 2) * Pow2(k) <= Pow2(w)
      requires words.Length * 4 >= npages * pageSize
      modifies this, words
      ensures kmallocPtr == ptr && kmallocArea == AreaStart(ptr, k, w) && bytesInMemory == npages * pageSize
      ensures kmallocArea % pageSize == 0 && ptr <= kmallocArea < ptr + pageSize
      ensures kmallocArea + bytesInMemory <= ptr + (npages + 2) * pageSize
      ensures reserved == old(reserved) + Pages(kmallocArea, pageSize, npages)
      ensures forall j :: 0 <= j < npages * pageSize / 4 && j % 2 == 0 ==> words[j] == (0xdead_0000 + j) % 0x1_0000_0000
      ensures forall j :: 0 <= j < npages * pageSize / 4 && j % 2 == 1 ==> words[j] == (0xbeef_0000 + j - 1) % 0x1_0000_0000
      ensures forall j :: npages * pageSize / 4 <= j < words.Length ==> words[j] == old(words[j])
    {
      kmallocPtr := ptr;
      Pow2Monotone(k, w);
      kmallocArea := BitAnd(ptr + pageSize - 1, Pow2(w) - pageSize);
      AreaInsideAllocation(ptr, npages, k, w);
      MulMonotone(pageSize, 0, npages);
      MarkReserved();
      EvenWords(npages, k);
      FillPattern(words, npages * pageSize / 4);
      bytesInMemory := npages * pageSize;
    }

    method MarkReserved()
      requires 0 < pageSize
      modifies `reserved
      ensures reserved == old(reserved) + Pages(kmallocArea, pageSize, npages)
    {
      var i: nat := 0;
      ghost var n: nat := 0;
      while i < npages * pageSize
        invariant n <= npages && i == n * pageSize
        invariant reserved == old(reserved) + Pages(kmallocArea, pageSize, n)
        decreases npages - n
      {
        assert n != npages;
        reserved := reserved + {kmallocArea + i};
        i := i + pageSize;
        n := n + 1;
      }
      if n < npages {
        MulMonotone(pageSize, n + 1, npages);
      }
    }

    method FillPattern(words: array<UInt32>, count: nat)
      requires count % 2 == 0 && count <= words.Length
      modifies words
      ensures forall j :: 0 <= j < count ==> words[j] == Pattern(j)
      ensures forall j :: count <= j < words.Length ==> words[j] == old(words[j])
    {
      var i := 0;
      while i < count
        invariant 0 <= i <= count && i % 2 == 0
        invariant forall j :: 0 <= j < i ==> words[j] == Pattern(j)
        invariant forall j :: i <= j < words.Length ==> words[j] == old(words[j])
      {
        words[i] := (0xdead_0000 + i) % 0x1_0000_0000;
        words[i + 1] := (0xbeef_0000 + i) % 0x1_0000_0000;
        i := i + 2;
      }
    }

    /** mmap at page offset 0 of a range no longer than the area stays inside it; all else is refused. */
    method Mmap(pgoff: nat, vmStart: nat, vmEnd: nat) returns (status: int, first: nat, last: nat)
      requires vmStart <= vmEnd
      ensures status == 0 <==> pgoff == 0 && vmEnd - vmStart <= npages * pageSize
      ensures status == 0 || status == -5
      ensures status == 0 ==> first == kmallocArea && last - first == vmEnd - vmStart
      ensures status == 0 ==> kmallocArea <= first <= last <= kmallocArea + npages * pageSize
    {
      if pgoff != 0 {
        return -EIO, 0, 0;
      }
      var length := vmEnd - vmStart;
      if length > npages * pageSize {
        return -EIO, 0, 0;
      }
      return 0, kmallocArea, kmallocArea + length;
    }
  }
}
