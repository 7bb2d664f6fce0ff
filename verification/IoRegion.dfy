/** Address translation of a libmetal I/O region on 64-bit words. */
module IoRegion {
  import opened Counting

  const WORD: nat := 0x1_0000_0000_0000_0000

  // METAL_BAD_OFFSET and METAL_BAD_PHYS; METAL_BAD_VA; NULL
  const BAD_OFFSET: nat := 0xFFFF_FFFF_FFFF_FFFF
  const BAD_PHYS: nat := 0xFFFF_FFFF_FFFF_FFFF
  const BAD_VA: nat := 0xFFFF_FFFF_FFFF_FFFF
  const NULL: nat := 0

  // `pageSize` is 2^page_shift, or 2^64 for the single-page regions whose page_shift is too
  // large to shift by; page_mask is pageSize - 1 in both cases.
  datatype Region = Region(virt: nat, physmap: seq<nat>, size: nat, pageSize: nat)

  predicate SinglePage(r: Region) { r.pageSize == WORD }

  /** A region as metal_io_init receives it: word-sized fields, pages of a power of two, and one table
      entry per page. */
  predicate WellFormed(r: Region) {
    && 0 < r.pageSize <= WORD && r.virt < WORD && r.size < WORD
    && (forall i :: 0 <= i < |r.physmap| ==> r.physmap[i] < WORD)
    && 1 <= |r.physmap| && r.size <= |r.physmap| * r.pageSize
    && WORD % r.pageSize == 0 && (!SinglePage(r) ==> 2 * r.pageSize <= WORD)
  }

  /** metal_io_virt. */
  function Virt(r: Region, offset: nat): nat {
    if r.virt != BAD_VA && offset < r.size then (r.virt + offset) % WORD else NULL
  }

  /** metal_io_virt_to_offset. */
  function VirtToOffset(r: Region, virt: nat): nat {
    var offset := (virt - r.virt) % WORD;
    if offset < r.size then offset else BAD_OFFSET
  }

  /** metal_io_phys. */
  function Phys(r: Region, offset: nat): nat
    requires WellFormed(r)
  {
    if offset < r.size then
      PageInTable(r, offset);
      (r.physmap[offset / r.pageSize] + offset % r.pageSize) % WORD
    else BAD_PHYS
  }

  lemma PageInTable(r: Region, offset: nat)
    requires WellFormed(r) && offset < r.size
    ensures offset / r.pageSize < |r.physmap|
  {
    var n := |r.physmap|;
    QuotientBelow(offset, r.pageSize, n);
  }

  lemma QuotientBelow(x: nat, p: nat, n: nat)
    requires p > 0 && x < n * p
    ensures x / p < n
  {
    var q := x / p;
    assert x == p * q + x % p;
    MulBounds(p, q - n);
    assert p * (q - n) == p * q - p * n;
  }

  /** Where the search of metal_io_phys_to_offset starts. */
  function FirstOffset(r: Region, phys: nat): nat
    requires WellFormed(r)
  {
    if SinglePage(r) then (phys - r.physmap[0]) % WORD else phys % r.pageSize
  }

  /** The first offset that translates to phys, looking at one offset per page from `offset` on. */
  function Search(r: Region, phys: nat, offset: nat): nat
    requires WellFormed(r)
    decreases r.size - offset
  {
    if Phys(r, offset) == phys then offset
    else if offset + r.pageSize < r.size then Search(r, phys, offset + r.pageSize)
    else BAD_OFFSET
  }

  function PhysToOffset(r: Region, phys: nat): nat
    requires WellFormed(r)
  {
    Search(r, phys, FirstOffset(r, phys))
  }

  /** The last offset the search comes to before the offset wraps. */
  function LastOffset(r: Region, phys: nat): nat
    requires WellFormed(r)
  {
    phys % r.pageSize + (WORD - r.pageSize)
  }

  /** Some page of the region translates to the address, at the address's offset in the page. */
  ghost predicate Occurs(r: Region, phys: nat)
    requires WellFormed(r)
  {
    exists i: nat :: InPage(r, phys % r.pageSize, i) < r.size && Phys(r, InPage(r, phys % r.pageSize, i)) == phys
  }

  /** When the search ends: always in a single-page region; else exactly if the table maps some page to
      the address, or the last offset before the wrap is out of range -- as it is in every region that
      ends a page before the end of the address space. */
  ghost predicate SearchEnds(r: Region, phys: nat)
    requires WellFormed(r)
  {
    SinglePage(r) || Occurs(r, phys) || LastOffset(r, phys) >= r.size
  }

  lemma OrdinaryRegionsEnd(r: Region, phys: nat)
    requires WellFormed(r) && (SinglePage(r) || r.size + r.pageSize <= WORD)
    ensures SearchEnds(r, phys)
  {
    hide Occurs;
  }

  /** metal_io_phys_to_offset: whenever the do-while loop ends it has computed the search, also for
      foreign addresses and when page_mask + 1 wraps to 0 in a single-page region. */
  method PhysToOffsetLoop(r: Region, phys: nat) returns (offset: nat)
    requires WellFormed(r) && phys < WORD && SearchEnds(r, phys)
    ensures offset == PhysToOffset(r, phys)
  {
    hide Phys, WellFormed, FirstOffset, LastOffset, SearchEnds, Occurs;
    offset := FirstOffset(r, phys);
    FirstOffsetBounds(r, phys);
    while true
      invariant Search(r, phys, offset) == PhysToOffset(r, phys)
      invariant if SinglePage(r) then offset == FirstOffset(r, phys)
                else offset < WORD && offset % r.pageSize == phys % r.pageSize && (offset < r.size || offset < r.pageSize)
      decreases r.size - offset
    {
      if Phys(r, offset) == phys {
        return;
      }
      if SinglePage(r) {
        SinglePageFinds(r, phys);
      } else {
        NoWrap(r, phys, offset);
      }
      NextOffset(r, offset);
      offset := (offset + r.pageSize) % WORD;
      if offset >= r.size {
        return BAD_OFFSET;
      }
    }
  }

  lemma FirstOffsetBounds(r: Region, phys: nat)
    requires WellFormed(r)
    ensures r.pageSize > 0 && FirstOffset(r, phys) < r.pageSize <= WORD
    ensures !SinglePage(r) ==> FirstOffset(r, phys) % r.pageSize == phys % r.pageSize
  {
    if !SinglePage(r) { ModUnique(phys % r.pageSize, r.pageSize, 0, phys % r.pageSize); }
  }

  /** In the last page before the wrap, the remainder fixes the offset. */
  lemma InLastPage(r: Region, phys: nat, offset: nat)
    requires WellFormed(r) && offset < WORD <= offset + r.pageSize && offset % r.pageSize == phys % r.pageSize
    ensures offset == LastOffset(r, phys)
  {
    var p, m := r.pageSize, phys % r.pageSize;
    assert WORD == p * (WORD / p);
    assert p * (WORD / p - 1) == WORD - p;
    assert LastOffset(r, phys) == p * (WORD / p - 1) + m;
    ModUnique(LastOffset(r, phys), p, WORD / p - 1, m);
    if offset < LastOffset(r, phys) { RemaindersDiffer(p, offset, LastOffset(r, phys)); }
    if offset > LastOffset(r, phys) { RemaindersDiffer(p, LastOffset(r, phys), offset); }
  }

  /** A search that ends and has not found its address yet does not come to the wrap. */
  lemma NoWrap(r: Region, phys: nat, offset: nat)
    requires WellFormed(r) && SearchEnds(r, phys) && !SinglePage(r) && Phys(r, offset) != phys
    requires Search(r, phys, offset) == PhysToOffset(r, phys)
    requires offset < WORD && offset % r.pageSize == phys % r.pageSize && (offset < r.size || offset < r.pageSize)
    ensures offset + r.pageSize < WORD
  {
    hide Phys, Occurs;
    if offset + r.pageSize >= WORD {
      InLastPage(r, phys, offset);
      FoundIfOccurs(r, phys);
    }
  }

  /** A paged search finds an address exactly if it occurs. */
  lemma FoundIfOccurs(r: Region, phys: nat)
    requires WellFormed(r) && !SinglePage(r)
    ensures PhysToOffset(r, phys) < r.size <==> Occurs(r, phys)
  {
    hide Phys;
    var m := phys % r.pageSize;
    assert InPage(r, m, 0) == m == FirstOffset(r, phys);
    if Occurs(r, phys) {
      var i: nat :| InPage(r, m, i) < r.size && Phys(r, InPage(r, m, i)) == phys;
      SearchStopsBy(r, phys, m, 0, i);
    }
    if PhysToOffset(r, phys) < r.size {
      SearchIsSound(r, phys, m);
      var i := StaysInStep(r, phys, m, 0);
    }
  }

  /** An answer in range is at the same offset in its page as the address. */
  lemma {:induction false} StaysInStep(r: Region, phys: nat, m: nat, i: nat) returns (j: nat)
    requires WellFormed(r) && m < r.pageSize && Search(r, phys, InPage(r, m, i)) < r.size
    ensures Search(r, phys, InPage(r, m, i)) == InPage(r, m, j)
    decreases r.size - InPage(r, m, i)
  {
    hide Phys;
    InPageParts(r, m, i);
    if Phys(r, InPage(r, m, i)) == phys {
      j := i;
    } else {
      j := StaysInStep(r, phys, m, i + 1);
    }
  }

  /** offset += page_mask + 1 stands still in a single-page region. */
  lemma NextOffset(r: Region, offset: nat)
    requires WellFormed(r) && offset < WORD && (SinglePage(r) || offset + r.pageSize < WORD)
    ensures (offset + r.pageSize) % WORD == if SinglePage(r) then offset else offset + r.pageSize
    ensures (offset + r.pageSize) % r.pageSize == offset % r.pageSize
  {
    ModAddMultiple(offset, r.pageSize, 1);
  }

  /** In a single-page region the first offset decides: it translates back or is out of range. */
  lemma SinglePageFinds(r: Region, phys: nat)
    requires WellFormed(r) && SinglePage(r) && phys < WORD
    ensures FirstOffset(r, phys) < r.size ==> Phys(r, FirstOffset(r, phys)) == phys
  {}

  // ---- Round trips ----

  /** One page per table entry, each starting on a page boundary. */
  predicate Aligned(r: Region)
    requires WellFormed(r)
  {
    !SinglePage(r) ==> forall i :: 0 <= i < |r.physmap| ==> r.physmap[i] % r.pageSize == 0
  }

  predicate PageUsed(r: Region, i: nat) { i * r.pageSize < r.size }

  /** No two pages of the region share a physical page. */
  predicate Injective(r: Region) {
    forall i, j :: 0 <= i < j < |r.physmap| && PageUsed(r, i) && PageUsed(r, j) ==> r.physmap[i] != r.physmap[j]
  }

  /** The physical address of an aligned, paged region splits into page and offset in page. */
  lemma PhysSplits(r: Region, offset: nat)
    requires WellFormed(r) && Aligned(r) && !SinglePage(r) && offset < r.size
    ensures offset / r.pageSize < |r.physmap| && PageUsed(r, offset / r.pageSize)
    ensures Phys(r, offset) == r.physmap[offset / r.pageSize] + offset % r.pageSize
    ensures Phys(r, offset) % r.pageSize == offset % r.pageSize
  {
    PageInTable(r, offset);
    var p, q, m := r.pageSize, offset / r.pageSize, offset % r.pageSize;
    assert offset == p * q + m;
    var base := r.physmap[q];
    assert base == p * (base / p) && WORD == p * (WORD / p);
    assert p * (WORD / p - base / p) == WORD - base;
    MulBounds(p, WORD / p - base / p);
    ModUnique(base + m, p, base / p, m);
  }

  predicate Paged(r: Region) {
    WellFormed(r) && Aligned(r) && !SinglePage(r)
  }

  /** The offset with remainder m in page i. */
  function InPage(r: Region, m: nat, i: nat): nat { m + r.pageSize * i }

  lemma InPageParts(r: Region, m: nat, i: nat)
    requires 0 < r.pageSize && m < r.pageSize
    ensures InPage(r, m, i) / r.pageSize == i && InPage(r, m, i) % r.pageSize == m
    ensures InPage(r, m, i + 1) == InPage(r, m, i) + r.pageSize
  {
    ModUnique(InPage(r, m, i), r.pageSize, i, m);
  }

  lemma InPageOrder(r: Region, m: nat, i: nat, j: nat)
    requires 0 < r.pageSize && i < j
    ensures InPage(r, m, i) + r.pageSize <= InPage(r, m, j)
  {
    MulBounds(r.pageSize, j - i);
    assert r.pageSize * j == r.pageSize * (j - i) + r.pageSize * i;
  }

  /** The search finds the first page, from page i on, in which phys occurs. */
  lemma {:induction false} SearchFinds(r: Region, phys: nat, m: nat, i: nat, j: nat)
    requires WellFormed(r) && m < r.pageSize && i <= j && InPage(r, m, j) < r.size
    requires Phys(r, InPage(r, m, j)) == phys
    requires forall k :: i <= k < j ==> Phys(r, InPage(r, m, k)) != phys
    ensures Search(r, phys, InPage(r, m, i)) == InPage(r, m, j)
    decreases j - i
  {
    if i < j {
      hide Phys;
      InPageParts(r, m, i);
      InPageOrder(r, m, i, j);
      SearchFinds(r, phys, m, i + 1, j);
    }
  }

  /** The search never goes past a page in which phys occurs. */
  lemma {:induction false} SearchStopsBy(r: Region, phys: nat, m: nat, i: nat, j: nat)
    requires WellFormed(r) && m < r.pageSize && i <= j && InPage(r, m, j) < r.size
    requires Phys(r, InPage(r, m, j)) == phys
    ensures Search(r, phys, InPage(r, m, i)) <= InPage(r, m, j)
    decreases j - i
  {
    hide Phys;
    if i < j {
      InPageParts(r, m, i);
      InPageOrder(r, m, i, j);
      SearchStopsBy(r, phys, m, i + 1, j);
    }
  }

  lemma RoundTripPaged(r: Region, offset: nat)
    requires Paged(r) && Injective(r) && offset < r.size
    ensures PhysToOffset(r, Phys(r, offset)) == offset
  {
    var m, q, phys := offset % r.pageSize, offset / r.pageSize, Phys(r, offset);
    assert offset == InPage(r, m, q);
    PhysSplits(r, offset);
    forall k | 0 <= k < q ensures Phys(r, InPage(r, m, k)) != phys {
      InPageParts(r, m, k);
      InPageOrder(r, m, k, q);
      PhysSplits(r, InPage(r, m, k));
    }
    hide Phys;
    SearchFinds(r, phys, m, 0, q);
    assert InPage(r, m, 0) == m;
  }

  lemma RoundTripSingle(r: Region, offset: nat)
    requires WellFormed(r) && SinglePage(r) && offset < r.size
    ensures PhysToOffset(r, Phys(r, offset)) == offset
  {
    assert offset / WORD == 0 && offset % WORD == offset;
    assert Phys(r, offset) == (r.physmap[0] + offset) % WORD;
    assert FirstOffset(r, Phys(r, offset)) == offset;
  }

  lemma SharedPageBreaksRoundTrip(r: Region, i: nat, j: nat)
    requires Paged(r) && i < j < |r.physmap| && PageUsed(r, i) && PageUsed(r, j) && r.physmap[i] == r.physmap[j]
    ensures InPage(r, 0, j) < r.size && PhysToOffset(r, Phys(r, InPage(r, 0, j))) < InPage(r, 0, j)
  {
    InPageParts(r, 0, i);
    InPageParts(r, 0, j);
    InPageOrder(r, 0, i, j);
    PhysSplits(r, InPage(r, 0, i));
    PhysSplits(r, InPage(r, 0, j));
    hide Phys;
    SearchStopsBy(r, Phys(r, InPage(r, 0, j)), 0, 0, i);
    assert InPage(r, 0, 0) == 0;
  }

  /** Translating an offset to a physical address and back is the identity on every offset of an
      aligned region exactly if no two of its pages share a physical page (a single-page region
      has no two pages). */
  lemma RoundTrip(r: Region)
    requires WellFormed(r) && Aligned(r)
    ensures (forall offset :: 0 <= offset < r.size ==> PhysToOffset(r, Phys(r, offset)) == offset) <==>
            SinglePage(r) || Injective(r)
  {
    hide Phys, PhysToOffset;
    if SinglePage(r) {
      forall offset | 0 <= offset < r.size ensures PhysToOffset(r, Phys(r, offset)) == offset {
        RoundTripSingle(r, offset);
      }
    } else if Injective(r) {
      forall offset | 0 <= offset < r.size ensures PhysToOffset(r, Phys(r, offset)) == offset {
        RoundTripPaged(r, offset);
      }
    } else {
      var i, j :| 0 <= i < j < |r.physmap| && PageUsed(r, i) && PageUsed(r, j) && r.physmap[i] == r.physmap[j];
      SharedPageBreaksRoundTrip(r, i, j);
    }
  }

  /** The answer to a physical address: an offset in range translates back to it; an answer out of
      range is METAL_BAD_OFFSET, except that METAL_BAD_PHYS itself is answered with the first
      offset tried whenever that one is out of range. */
  lemma {:induction false} SearchIsSound(r: Region, phys: nat, offset: nat)
    requires WellFormed(r)
    ensures var o := Search(r, phys, offset);
            && (o < r.size ==> Phys(r, o) == phys)
            && (o >= r.size ==> o == if phys == BAD_PHYS && offset >= r.size then offset else BAD_OFFSET)
    decreases r.size - offset
  {
    if Phys(r, offset) != phys && offset + r.pageSize < r.size {
      SearchIsSound(r, phys, offset + r.pageSize);
    }
  }

  lemma ImageIsFound(r: Region, o: nat)
    requires WellFormed(r) && Aligned(r) && o < r.size
    ensures PhysToOffset(r, Phys(r, o)) < r.size
  {
    if SinglePage(r) {
      RoundTripSingle(r, o);
    } else {
      var m, q := o % r.pageSize, o / r.pageSize;
      assert o == InPage(r, m, q) && InPage(r, m, 0) == m;
      PhysSplits(r, o);
      hide Phys;
      SearchStopsBy(r, Phys(r, o), m, 0, q);
    }
  }

  /** An address is found exactly if it is the image of some offset in range. */
  lemma FindsExactlyImages(r: Region, phys: nat)
    requires WellFormed(r) && Aligned(r)
    ensures PhysToOffset(r, phys) < r.size <==> exists o :: 0 <= o < r.size && Phys(r, o) == phys
  {
    hide Phys, FirstOffset;
    SearchIsSound(r, phys, FirstOffset(r, phys));
    hide Search, Aligned;
    forall o | 0 <= o < r.size && Phys(r, o) == phys ensures PhysToOffset(r, phys) < r.size {
      ImageIsFound(r, o);
    }
  }

  /** Virtual addresses of the region survive the trip through physical ones. */
  lemma VirtualRoundTrip(r: Region, offset: nat)
    requires WellFormed(r) && Aligned(r) && (SinglePage(r) || Injective(r))
    requires r.virt != BAD_VA && offset < r.size
    ensures VirtToOffset(r, Virt(r, offset)) == offset
    ensures Virt(r, PhysToOffset(r, Phys(r, VirtToOffset(r, Virt(r, offset))))) == Virt(r, offset)
  {
    RoundTrip(r);
  }

  // ---- Virtual addresses ----

  /** The region lies in one piece from its virtual address on... */
  lemma RegionIsInOnePiece(r: Region, offset: nat)
    requires WellFormed(r) && offset < r.size && r.virt != BAD_VA
    ensures Virt(r, 0) == r.virt
    ensures offset > 0 ==> Virt(r, offset) == (Virt(r, offset - 1) + 1) % WORD
  {}

  /** ...and each page of it in one piece from the page's table entry on. */
  lemma PageIsInOnePiece(r: Region, m: nat, i: nat)
    requires WellFormed(r) && m < r.pageSize && InPage(r, m, i) < r.size
    ensures i < |r.physmap|
    ensures m == 0 ==> Phys(r, InPage(r, m, i)) == r.physmap[i]
    ensures m > 0 ==> InPage(r, m - 1, i) == InPage(r, m, i) - 1
    ensures m > 0 ==> Phys(r, InPage(r, m, i)) == (Phys(r, InPage(r, m - 1, i)) + 1) % WORD
  {
    PageInTable(r, InPage(r, m, i));
    InPageParts(r, m, i);
    if m > 0 {
      InPageParts(r, m - 1, i);
      hide InPage;
      WrapsOnce(r.physmap[i] + (m - 1));
    }
  }

  lemma WrapsOnce(x: nat)
    ensures (x + 1) % WORD == (x % WORD + 1) % WORD
  {}

  /** The address is one that metal_io_virt gives for some offset of the region. */
  ghost predicate Mapped(r: Region, virt: nat) {
    r.virt != BAD_VA && exists o: nat :: o < r.size && Virt(r, o) == virt
  }

  /** In a region that has a virtual address, metal_io_virt_to_offset answers METAL_BAD_OFFSET exactly
      for the addresses that are those of no offset, and any other with the offset it is the address of. */
  lemma VirtToOffsetExactly(r: Region, virt: nat)
    requires WellFormed(r) && virt < WORD && r.virt != BAD_VA
    ensures VirtToOffset(r, virt) == BAD_OFFSET <==> !Mapped(r, virt)
    ensures Mapped(r, virt) ==> VirtToOffset(r, virt) < r.size && Virt(r, VirtToOffset(r, virt)) == virt
  {
    var o := VirtToOffset(r, virt);
    if o != BAD_OFFSET { assert Virt(r, o) == virt; }
  }

  function AddressOf(r: Region, offset: nat): nat { (r.virt + offset) % WORD }

  /** A region without one, for which metal_io_virt has no address, still answers for as many addresses
      as it has bytes: METAL_BAD_VA with 0, and NULL with 1. */
  lemma UnmappedRegionAnswers(r: Region)
    requires WellFormed(r) && r.virt == BAD_VA && r.size > 0
    ensures forall o: nat :: Virt(r, o) == NULL
    ensures VirtToOffset(r, BAD_VA) == 0 && (r.size > 1 ==> VirtToOffset(r, NULL) == 1)
    ensures forall o: nat :: o < r.size ==> VirtToOffset(r, AddressOf(r, o)) == o
  {
    assert (BAD_VA + 1) % WORD == NULL;
    if r.size > 1 { assert AddressOf(r, 1) == NULL; }
  }

  lemma NothingMapped(r: Region)
    requires r.virt == BAD_VA
    ensures forall virt: nat :: !Mapped(r, virt)
  {}

  /** So the answers are right for every address exactly if the region has a virtual address or is empty. */
  lemma AnswersAreRightExactly(r: Region)
    requires WellFormed(r)
    ensures (forall virt: nat :: virt < WORD ==> (VirtToOffset(r, virt) != BAD_OFFSET <==> Mapped(r, virt)))
            <==> r.virt != BAD_VA || r.size == 0
  {
    hide Mapped;
    if r.virt != BAD_VA {
      forall virt: nat | virt < WORD ensures VirtToOffset(r, virt) != BAD_OFFSET <==> Mapped(r, virt) {
        VirtToOffsetExactly(r, virt);
      }
    } else {
      NothingMapped(r);
      if r.size > 0 { UnmappedRegionAnswers(r); }
    }
  }

  // ---- The search that never ends ----

  /** The offset after k turns of the loop that did not return. */
  function Turn(r: Region, phys: nat, k: nat): nat
    requires WellFormed(r)
  {
    if k == 0 then FirstOffset(r, phys) else (Turn(r, phys, k - 1) + r.pageSize) % WORD
  }

  lemma {:induction false} TurnsGoAround(r: Region, phys: nat, k: nat) returns (j: nat)
    requires WellFormed(r) && !SinglePage(r)
    ensures Turn(r, phys, k) == InPage(r, phys % r.pageSize, j) && InPage(r, phys % r.pageSize, j) <= LastOffset(r, phys)
  {
    hide LastOffset, InPage;
    if k == 0 {
      j := 0;
      FirstPage(r, phys);
    } else {
      var i := TurnsGoAround(r, phys, k - 1);
      j := NextPage(r, phys, i);
    }
  }

  lemma FirstPage(r: Region, phys: nat)
    requires WellFormed(r) && !SinglePage(r)
    ensures InPage(r, phys % r.pageSize, 0) == FirstOffset(r, phys) <= LastOffset(r, phys)
  {}

  /** From one page to the next, and from the last before the wrap to the first. */
  lemma NextPage(r: Region, phys: nat, i: nat) returns (j: nat)
    requires WellFormed(r) && !SinglePage(r) && InPage(r, phys % r.pageSize, i) <= LastOffset(r, phys)
    ensures (InPage(r, phys % r.pageSize, i) + r.pageSize) % WORD == InPage(r, phys % r.pageSize, j) <= LastOffset(r, phys)
  {
    hide InPage;
    var m := phys % r.pageSize;
    InPageParts(r, m, i);
    var next := InPage(r, m, i + 1);
    if next < WORD {
      j := i + 1;
      NotPastLast(r, phys, j);
      ModUnique(next, WORD, 0, next);
    } else {
      InLastPage(r, phys, InPage(r, m, i));
      j := 0;
      FirstPage(r, phys);
      ModUnique(next, WORD, 1, m);
    }
  }

  lemma NotPastLast(r: Region, phys: nat, j: nat)
    requires WellFormed(r) && InPage(r, phys % r.pageSize, j) < WORD
    ensures InPage(r, phys % r.pageSize, j) <= LastOffset(r, phys)
  {
    var m, p := phys % r.pageSize, r.pageSize;
    var q := WORD / p;
    assert WORD == p * q;
    assert p * (q - j) == WORD - p * j;
    MulBounds(p, q - j);
    assert q - j >= 1;
    assert p * (q - 1) == WORD - p;
    assert p * (q - 1) == p * (q - 1 - j) + p * j;
    MulBounds(p, q - 1 - j);
  }

  /** Otherwise it never ends: after any number of turns the offset is in range and does not translate
      to the address, so the loop neither returns it nor stops. */
  lemma SearchNeverEnds(r: Region, phys: nat, k: nat)
    requires WellFormed(r) && !SearchEnds(r, phys)
    ensures Turn(r, phys, k) < r.size && Phys(r, Turn(r, phys, k)) != phys
  {
    hide Phys, Turn, Search;
    var j := TurnsGoAround(r, phys, k);
    assert Phys(r, InPage(r, phys % r.pageSize, j)) != phys;
  }

  /** Such a region: two halves of the address space on the same physical page. */
  lemma EndlessRegion()
    ensures var r := Region(0, [0, 0], WORD - 1, WORD / 2); WellFormed(r) && !SearchEnds(r, WORD / 2)
  {
    var r := Region(0, [0, 0], WORD - 1, WORD / 2);
    assert WellFormed(r);
    forall i: nat | InPage(r, 0, i) < r.size ensures Phys(r, InPage(r, 0, i)) != WORD / 2 {
      InPageParts(r, 0, i);
      PageInTable(r, InPage(r, 0, i));
      assert Phys(r, InPage(r, 0, i)) == 0;
    }
  }

  /** METAL_BAD_PHYS answered with an offset out of range: half a page of one byte. */
  lemma BadPhysIsAnswered()
    ensures var r := Region(0, [0], 1, 2); WellFormed(r) && PhysToOffset(r, BAD_PHYS) == 1 == r.size
  {
    var r := Region(0, [0], 1, 2);
    assert FirstOffset(r, BAD_PHYS) == 1;
    assert Phys(r, 1) == BAD_PHYS;
  }
}
