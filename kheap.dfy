// The helpers of the kernel heap allocator (src/mem/kheap.c): block
// headers and footers, the size comparator of the hole index, growing and
// shrinking the heap, creating it, the hole search and the split rule of
// `alloc`.
//
// Memory holding block metadata is a BlockMemory object: the headers and
// footers written so far, by address.  A failed ASSERT halts the kernel
// (oh_panic spins forever); the model returns None or false for it and
// writes nothing more.

module KernelHeap {
  import opened Common
  import OrderedArrays

  const HeapIndexNum: nat := 0x20000
  const HeapMagic: u32 := 0x1238_90AB
  const HeapMinSize: nat := 0x10000
  /** sizeof(kheap_block_header_t): a uint32, a uint8 padded to 4, a uint32. */
  const HeaderSize: nat := 12
  /** sizeof(kheap_block_footer_t): a uint32 and a pointer. */
  const FooterSize: nat := 8
  const BlockMetaSize: nat := 20
  const IsHole: u8 := 1
  const NotHole: u8 := 0

  datatype BlockHeader = BlockHeader(magic: u32, isHole: u8, size: u32)
  datatype BlockFooter = BlockFooter(magic: u32, header: u32)

  /** What C's `a & (flag)` gives when a comparison was meant to be inside
      the `&`: the comparison yields 0 or 1, so only bit 0 of `a` survives. */
  function AndFlag(a: u32, flag: bool): (r: u32)
    ensures r <= 1
    ensures !flag ==> r == 0
  {
    if flag then a % 2 else 0
  }

  /** The page rounding of kheap_expand and kheap_contract as written
      (kheap.c:33-35 and 47-49): `new_size & 0xFFFFF000 != 0` parses as
      `new_size & 1`, so only odd sizes are rounded. */
  function PageRoundAsWritten(n: u32): (r: u32)
    ensures n % 2 == 0 ==> r == n
    ensures n % 2 == 1 ==> r % PageSize == 0
  {
    if AndFlag(n, 0xFFFF_F000 != 0) != 0 then Wrap32(n - n % PageSize + PageSize) else n
  }

  /** The rounding the comment "make it page aligned" asks for: up to the
      next page boundary when `n` is not on one (uint32 arithmetic). */
  function PageRoundUp(n: u32): (r: u32)
    ensures r % PageSize == 0
    ensures n % PageSize == 0 ==> r == n
  {
    if n % PageSize != 0 then Wrap32(n - n % PageSize + PageSize) else n
  }

  /** PageRoundUp gives the least page boundary at or above `n` (below the
      last page, where uint32 arithmetic wraps to 0). */
  lemma PageRoundUpAligned(n: u32)
    ensures n <= 0xFFFF_F000 ==> PageRoundUp(n) % PageSize == 0 && n <= PageRoundUp(n) < n + PageSize
    ensures n % PageSize == 0 ==> PageRoundUp(n) == n
    ensures n > 0xFFFF_F000 ==> PageRoundUp(n) == 0
  {
  }

  /** As written an even size that is not on a page boundary stays
      unaligned: 0x1002 is left as it is. */
  lemma PageRoundAsWrittenMisses()
    ensures PageRoundAsWritten(0x1002) == 0x1002 && 0x1002 % PageSize != 0
    ensures PageRoundUp(0x1002) == 0x2000
  {
  }

  /** The two agree exactly on odd sizes and on page-aligned sizes. */
  lemma PageRoundAsWrittenOdd(n: u32)
    ensures n % 2 == 1 || n % PageSize == 0 ==> PageRoundAsWritten(n) == PageRoundUp(n)
  {
  }

  /** The `int32 size` make_block computes: `end - start - BLOCK_META_SIZE`
      in uint32 arithmetic, read as signed. */
  function BlockSize(start: u32, end: u32): (r: i32)
    ensures start + BlockMetaSize < end < start + BlockMetaSize + 0x8000_0000 ==> r == end - start - BlockMetaSize
  {
    ToI32(Wrap32(end - start - BlockMetaSize))
  }

  /** make_block succeeds exactly for a span with room for the metadata
      and some data, and under 2 GiB of data. */
  lemma BlockSizePositive(start: u32, end: u32)
    requires start <= end
    ensures BlockSize(start, end) > 0 <==> start + BlockMetaSize < end && end - start - BlockMetaSize < 0x8000_0000
  {
  }

  /** The header an address holds, all zero where none was written. */
  function HeaderAt(headers: map<nat, BlockHeader>, a: nat): BlockHeader
  {
    if a in headers then headers[a] else BlockHeader(0, 0, 0)
  }

  /** kheap_block_comparator: -1, 0 or 1 as the first block's size is
      smaller than, equal to or larger than the second's. */
  function BlockComparator(x: BlockHeader, y: BlockHeader): (r: int)
    ensures r == -1 <==> x.size < y.size
    ensures r == 0 <==> x.size == y.size
    ensures r == 1 <==> x.size > y.size
  {
    if x.size < y.size then -1 else if x.size == y.size then 0 else 1
  }

  /** The comparator the hole index calls: it compares the blocks whose
      headers sit at the two addresses. */
  function IndexComparator(headers: map<nat, BlockHeader>): (cmp: OrderedArrays.Comparator)
  {
    (x: u32, y: u32) => BlockComparator(HeaderAt(headers, x), HeaderAt(headers, y))
  }

  /** Ordering blocks by size is an ordering in the sense the index needs,
      so inserting holes keeps it sorted by size. */
  lemma IndexComparatorIsOrdering(headers: map<nat, BlockHeader>)
    ensures OrderedArrays.IsOrdering(IndexComparator(headers))
  {
    var cmp := IndexComparator(headers);
    forall a: u32, b: u32 | cmp(a, b) > 0 ensures cmp(b, a) <= 0 {
      assert HeaderAt(headers, a).size > HeaderAt(headers, b).size;
    }
    forall a: u32, b: u32, c: u32 | cmp(a, b) <= 0 && cmp(b, c) <= 0 ensures cmp(a, c) <= 0 {
      assert HeaderAt(headers, a).size <= HeaderAt(headers, b).size <= HeaderAt(headers, c).size;
    }
  }

  /** The memory that holds block headers and footers. */
  class BlockMemory {
    var headers: map<nat, BlockHeader>
    var footers: map<nat, BlockFooter>

    constructor ()
      ensures headers == map[] && footers == map[]
    {
      headers := map[];
      footers := map[];
    }

    /** make_block: with a positive size, a header with the magic, the flag
        and `end - start - BLOCK_META_SIZE` at `start`, and a footer with
        the magic pointing back to it just below `end`; the header's
        address comes back.  A size that is not positive halts. */
    method MakeBlock(start: u32, end: u32, isHole: u8) returns (r: Option<u32>)
      modifies this
      ensures BlockSize(start, end) <= 0 ==> r == None && headers == old(headers) && footers == old(footers)
      ensures BlockSize(start, end) > 0 ==>
        (r == Some(start) &&
         headers == old(headers)[start := BlockHeader(HeapMagic, isHole, BlockSize(start, end))] &&
         footers == old(footers)[Wrap32(end - FooterSize) := BlockFooter(HeapMagic, start)])
    {
      var size := BlockSize(start, end);
      if size <= 0 {
        return None;
      }
      headers := headers[start := BlockHeader(HeapMagic, isHole, size)];
      footers := footers[Wrap32(end - FooterSize) := BlockFooter(HeapMagic, start)];
      r := Some(start);
    }
  }

  /** A block made over `[start, end)` is well formed: the footer ends the
      span, its back pointer finds the header, both carry the magic, and
      header, data and footer fill the span exactly. */
  lemma MadeBlockLayout(start: u32, end: u32, isHole: u8, headers: map<nat, BlockHeader>, footers: map<nat, BlockFooter>)
    requires start <= end && BlockSize(start, end) > 0
    requires headers == map[start := BlockHeader(HeapMagic, isHole, BlockSize(start, end))]
    requires footers == map[Wrap32(end - FooterSize) := BlockFooter(HeapMagic, start)]
    ensures var f := end - FooterSize;
      f in footers && f + FooterSize == end && footers[f].magic == HeapMagic &&
      footers[f].header in headers && headers[footers[f].header].magic == HeapMagic &&
      footers[f].header == start && start + BlockMetaSize + headers[start].size == end
  {
    BlockSizePositive(start, end);
  }

  /** Whether the hole whose header sits at `a` serves a request: one of
      `size` bytes, or with `pageAlign` one whose data can start on a page
      boundary with room for a hole in front (the aligned test of
      find_smallest_hole, with the intended rounding). */
  predicate Fits(headers: map<nat, BlockHeader>, a: u32, size: u32, pageAlign: bool)
  {
    if pageAlign then
      var start := Wrap32(a + HeaderSize);
      var next := PageRoundUp(start);
      next < Wrap32(start + HeaderAt(headers, a).size) && Wrap32(next - start) > BlockMetaSize
    else
      HeaderAt(headers, a).size >= size
  }

  /** The aligned test of find_smallest_hole as written (kheap.c:124-126):
      `start & 0xFFF != 0` parses as `start & 1`, so an even data start
      that is not on a page boundary is taken as the aligned address. */
  predicate FitsAsWritten(headers: map<nat, BlockHeader>, a: u32, size: u32, pageAlign: bool)
  {
    if pageAlign then
      var start := Wrap32(a + HeaderSize);
      var next := PageRoundAsWritten(start);
      next < Wrap32(start + HeaderAt(headers, a).size) && Wrap32(next - start) > BlockMetaSize
    else
      HeaderAt(headers, a).size >= size
  }

  /** As written, an aligned request misses a hole at 0x100002 of 0x3000
      bytes: its data start 0x10000E is even, so it is taken as aligned and
      leaves no room in front; the page boundary 0x101000 inside the hole
      would serve. */
  lemma AlignedFitAsWrittenMisses()
    ensures var h := map[0x10_0002 := BlockHeader(HeapMagic, IsHole, 0x3000)];
      !FitsAsWritten(h, 0x10_0002, 0, true) && Fits(h, 0x10_0002, 0, true)
  {
    var h := map[0x10_0002 := BlockHeader(HeapMagic, IsHole, 0x3000)];
    assert PageRoundAsWritten(0x10_000E) == 0x10_000E;
    assert PageRoundUp(0x10_000E) == 0x10_1000;
  }

  /** With the intended rounding, a hole that fits an aligned request
      offers a page-aligned data start inside it, with more than
      BLOCK_META_SIZE bytes in front of it for a hole of its own (away
      from the top of the address space, where uint32 arithmetic wraps). */
  lemma AlignedFitPlacesData(headers: map<nat, BlockHeader>, a: u32, size: u32)
    requires a + HeaderSize + HeaderAt(headers, a).size <= 0xFFFF_F000
    requires Fits(headers, a, size, true)
    ensures var start := a + HeaderSize; var next := PageRoundUp(start);
      next % PageSize == 0 && start + BlockMetaSize < next < start + HeaderAt(headers, a).size
  {
    PageRoundUpAligned(a + HeaderSize);
  }

  /** Over an index sorted by size, the first hole that is large enough is
      a smallest one that is large enough: best fit. */
  lemma FirstFitIsBestFit(s: seq<u32>, headers: map<nat, BlockHeader>, size: u32, r: nat)
    requires OrderedArrays.Sorted(s, IndexComparator(headers))
    requires r < |s| && Fits(headers, s[r], size, false)
    requires forall j :: 0 <= j < r ==> !Fits(headers, s[j], size, false)
    ensures forall j :: 0 <= j < |s| && Fits(headers, s[j], size, false) ==>
      HeaderAt(headers, s[r]).size <= HeaderAt(headers, s[j]).size
  {
    forall j | 0 <= j < |s| && Fits(headers, s[j], size, false)
      ensures HeaderAt(headers, s[r]).size <= HeaderAt(headers, s[j]).size
    {
      if j > r {
        assert IndexComparator(headers)(s[r], s[j]) <= 0;
      }
    }
  }

  /** The split rule of alloc (kheap.c:178-182 and 221-247) for a hole of
      `blockSize` that holds `requested` bytes: the block taken and the
      hole left behind.  A remainder of at most BLOCK_META_SIZE is given
      to the block instead of becoming a hole. */
  function Split(blockSize: u32, requested: u32): (r: (nat, nat))
    requires requested <= blockSize
    ensures r.0 + r.1 == blockSize && r.0 >= requested
    ensures r.1 == 0 || r.1 > BlockMetaSize
    ensures r.1 == 0 <==> blockSize - requested <= BlockMetaSize
    ensures blockSize - requested <= BlockMetaSize ==> r == (blockSize as nat, 0)
    ensures blockSize - requested > BlockMetaSize ==> r == (requested as nat, blockSize - requested)
  {
    var taken := if Wrap32(blockSize - requested) <= BlockMetaSize then blockSize else requested;
    (taken, blockSize - taken)
  }

  /** The sanity checks of create_kheap as written (kheap.c:86-87):
      `start & 0xFFF == 0` parses as `start & (0xFFF == 0)`, which is
      `start & 0`. */
  predicate CreateChecksAsWritten(start: u32, end: u32)
  {
    AndFlag(start, 0xFFF == 0) != 0 && AndFlag(end, 0xFFF == 0) != 0
  }

  /** So the first ASSERT of create_kheap fails for every start address. */
  lemma CreateKheapAlwaysHalts(start: u32, end: u32)
    ensures !CreateChecksAsWritten(start, end)
  {
  }

  /** The intended checks: both ends of the heap are page aligned. */
  predicate CreateChecks(start: u32, end: u32)
  {
    start % PageSize == 0 && end % PageSize == 0
  }

  /** A page-aligned start passes the intended check, which the as-written
      check never lets through. */
  lemma CreateChecksDiffer()
    ensures CreateChecks(0x10_0000, 0x20_0000) && !CreateChecksAsWritten(0x10_0000, 0x20_0000)
  {
  }

  /** kheap_t. */
  class Heap {
    /** The hole index: header addresses ordered by block size. */
    const index: OrderedArrays.OrderedArray
    var startAddress: u32
    var endAddress: u32
    var size: u32
    const maxAddress: u32
    const supervisor: u8
    const readonly: u8

    ghost predicate Valid()
      reads this
    {
      endAddress == Wrap32(startAddress + size)
    }

    constructor (index: OrderedArrays.OrderedArray, start: u32, end: u32, max: u32, supervisor: u8, readonly: u8)
      ensures Valid()
      ensures this.index == index && startAddress == start && endAddress == end && size == Wrap32(end - start)
      ensures maxAddress == max && this.supervisor == supervisor && this.readonly == readonly
    {
      this.index := index;
      startAddress := start;
      endAddress := end;
      size := Wrap32(end - start);
      maxAddress := max;
      this.supervisor := supervisor;
      this.readonly := readonly;
    }

    /** kheap_expand: the new size rounded up to a page must exceed the old
        one and the new end must not pass `max_address`, or the kernel
        halts; then size and end move together. */
    method Expand(newSize: u32) returns (ok: bool)
      requires Valid()
      modifies this
      ensures Valid()
      ensures var n := PageRoundUp(newSize);
        ok <==> n > old(size) && Wrap32(old(startAddress) + n) <= maxAddress
      ensures ok ==> size == PageRoundUp(newSize) && size > old(size) && endAddress <= maxAddress
      ensures !ok ==> size == old(size) && endAddress == old(endAddress)
      ensures startAddress == old(startAddress)
    {
      var n := PageRoundUp(newSize);
      if n <= size {
        return false;
      }
      var newEnd := Wrap32(startAddress + n);
      if newEnd > maxAddress {
        return false;
      }
      size := n;
      endAddress := newEnd;
      ok := true;
    }

    /** kheap_contract: the new size rounded up to a page must be below the
        old one, or the kernel halts; it is then raised to HEAP_MIN_SIZE if
        smaller, becomes the size and is returned. */
    method Contract(newSize: u32) returns (r: Option<u32>)
      requires Valid()
      modifies this
      ensures Valid()
      ensures r.Some? <==> PageRoundUp(newSize) < old(size)
      ensures r.Some? ==> r.value == (if PageRoundUp(newSize) < HeapMinSize then HeapMinSize else PageRoundUp(newSize))
      ensures r.Some? ==> size == r.value && size >= HeapMinSize
      ensures r.None? ==> size == old(size) && endAddress == old(endAddress)
      ensures startAddress == old(startAddress)
    {
      var n := PageRoundUp(newSize);
      if n >= size {
        return None;
      }
      if n < HeapMinSize {
        n := HeapMinSize;
      }
      size := n;
      endAddress := Wrap32(startAddress + n);
      r := Some(n);
    }

    /** find_smallest_hole: the first index entry whose hole fits, or -1. */
    method FindSmallestHole(request: u32, pageAlign: bool, headers: map<nat, BlockHeader>) returns (r: int)
      requires index.Valid()
      ensures -1 <= r < index.size
      ensures r == -1 <==> forall j :: 0 <= j < index.size ==> !Fits(headers, index.Contents()[j], request, pageAlign)
      ensures r >= 0 ==> Fits(headers, index.Contents()[r], request, pageAlign)
      ensures r >= 0 ==> forall j :: 0 <= j < r ==> !Fits(headers, index.Contents()[j], request, pageAlign)
    {
      var i := 0;
      while i < index.size
        invariant 0 <= i <= index.size
        invariant forall j :: 0 <= j < i ==> !Fits(headers, index.Contents()[j], request, pageAlign)
      {
        var a := index.Get(i);
        if Fits(headers, a, request, pageAlign) {
          return i;
        }
        i := i + 1;
      }
      r := -1;
    }
  }

  /** create_kheap with the intended checks: the index takes the first
      HEAP_INDEX_NUM pointer slots, the data starts behind it, and the
      rest of the span becomes one hole, the only entry of the index.
      A failed check or a span too small for a block halts (null); any
      other input gives a heap.  The index compares the headers as they
      are once the hole is made. */
  method CreateKheap(mem: BlockMemory, buffer: array<u32>, start: u32, end: u32, max: u32, supervisor: u8, readonly: u8)
    returns (heap: Heap?)
    requires buffer.Length == HeapIndexNum
    modifies mem, buffer
    ensures heap == null <==> !CreateChecks(start, end) || BlockSize(Wrap32(start + 4 * HeapIndexNum), end) <= 0
    ensures heap != null ==> fresh(heap) && fresh(heap.index)
    ensures heap != null ==> heap.Valid() && heap.index.Valid() && heap.index.items == buffer
    ensures heap != null ==> heap.startAddress == Wrap32(start + 4 * HeapIndexNum) && heap.endAddress == end
    ensures heap != null ==> heap.size == Wrap32(end - heap.startAddress) && heap.maxAddress == max
    ensures heap != null ==> heap.supervisor == supervisor && heap.readonly == readonly
    ensures heap != null ==> heap.index.Contents() == [heap.startAddress]
    ensures heap != null ==>
      mem.headers == old(mem.headers)[heap.startAddress := BlockHeader(HeapMagic, IsHole, BlockSize(heap.startAddress, end))]
    ensures heap != null ==> heap.index.comparator == IndexComparator(mem.headers)
  {
    if !CreateChecks(start, end) {
      return null;
    }
    var dataStart := Wrap32(start + 4 * HeapIndexNum);
    var made := mem.MakeBlock(dataStart, end, IsHole);
    if made.None? {
      return null;
    }
    var index := new OrderedArrays.OrderedArray(buffer, HeapIndexNum, IndexComparator(mem.headers));
    heap := new Heap(index, dataStart, end, max, supervisor, readonly);
    var _ := index.Insert(dataStart);
  }
}
