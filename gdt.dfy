// The global descriptor table (src/mem/gdt.c, src/mem/gdt.h): how
// gdt_set_gate packs a segment's base, limit, access byte and flags into
// the 8-byte descriptor, and the six descriptors init_gdt installs.

module Gdt {
  import opened Common

  /** The packed descriptor (gdt.h): 2 + 2 + 1 + 1 + 1 + 1 bytes. */
  datatype GdtEntry = GdtEntry(
    limitLow: u16,
    baseLow: u16,
    baseMiddle: u8,
    access: u8,
    attributes: u8,
    baseHigh: u8)

  const EntryBytes: nat := 2 + 2 + 1 + 1 + 1 + 1
  const EntryCount: nat := 6

  /** FLAG_G_4K and FLAG_D_32 (gdt.h). */
  const FlagG4K: u8 := 8
  const FlagD32: u8 := 4

  /** DESC_P, the privilege levels and the type nibbles (gdt.h). */
  const DescP: u8 := 0x80
  const DescDpl0: u8 := 0x00
  const DescDpl3: u8 := 0x60
  const DescTypeCode: u8 := 0xA
  const DescTypeData: u8 := 0x2

  /** The base address a descriptor encodes. */
  function EntryBase(e: GdtEntry): u32
  {
    e.baseLow + e.baseMiddle * 0x1_0000 + e.baseHigh * 0x100_0000
  }

  /** The 20-bit limit a descriptor encodes: limit_low and the low nibble of the attributes. */
  function EntryLimit(e: GdtEntry): nat
  {
    e.limitLow + (e.attributes % 16) * 0x1_0000
  }

  /**
   * gdt_set_gate's packing of one descriptor. The shifts and masks are
   * written as division and remainder by powers of two; the two nibbles
   * of the attributes byte are disjoint, so their `|` is a sum.
   */
  function Gate(base: u32, limit: u32, access: u8, flags: u8): GdtEntry
  {
    GdtEntry(
      limit % 0x1_0000,
      base % 0x1_0000,
      (base / 0x1_0000) % 0x100,
      access,
      (limit / 0x1_0000) % 16 + (flags % 16) * 16,
      (base / 0x100_0000) % 0x100)
  }

  /**
   * What the CPU reads back from a packed descriptor: the whole 32-bit
   * base, the limit's low 20 bits, the flags' low nibble and the access
   * byte as given.
   */
  lemma GateRoundTrip(base: u32, limit: u32, access: u8, flags: u8)
    ensures EntryBase(Gate(base, limit, access, flags)) == base
    ensures EntryLimit(Gate(base, limit, access, flags)) == limit % 0x10_0000
    ensures Gate(base, limit, access, flags).attributes / 16 == flags % 16
    ensures Gate(base, limit, access, flags).access == access
  {
    assert base == base % 0x1_0000 + ((base / 0x1_0000) % 0x100) * 0x1_0000 + (base / 0x100_0000) * 0x100_0000;
    assert limit % 0x10_0000 == limit % 0x1_0000 + ((limit / 0x1_0000) % 16) * 0x1_0000;
  }

  /**
   * The access bytes and flags init_gdt passes (gdt.c lines 14-22). The
   * OR-ed constants occupy disjoint bits, so each OR is a sum; the type
   * nibble is OR-ed with itself there, which leaves it as it is.
   */
  const KernelCodeAccess: u8 := DescP + DescDpl0 + DescTypeCode
  const KernelDataAccess: u8 := DescP + DescDpl0 + DescTypeData
  const UserDataTypedAccess: u8 := DescP + DescDpl3 + DescTypeData
  const UserCodeTypedAccess: u8 := DescP + DescDpl3 + DescTypeCode
  const SegmentFlags: u8 := FlagG4K + FlagD32

  /** The limits init_gdt passes: 4 GiB in 4 KiB pages, and the eight video pages. */
  const FullLimit: u32 := 0xFFFFF
  const VideoLimit: u32 := 7

  /** The descriptor init_gdt asks gdt_set_gate for at index `num` (gdt.c lines 11-22). */
  function InitGate(num: nat): GdtEntry
    requires num < EntryCount
  {
    match num
    case 0 => Gate(0, 0, 0, 0)
    case 1 => Gate(0, FullLimit, KernelCodeAccess, SegmentFlags)
    case 2 => Gate(0, FullLimit, KernelDataAccess, SegmentFlags)
    case 3 => Gate(0, VideoLimit, KernelDataAccess, SegmentFlags)
    case 4 => Gate(0, FullLimit, UserDataTypedAccess, SegmentFlags)
    case _ => Gate(0, FullLimit, UserCodeTypedAccess, SegmentFlags)
  }

  /** The null descriptor is all zeros. */
  lemma NullSegment()
    ensures Gate(0, 0, 0, 0) == GdtEntry(0, 0, 0, 0, 0, 0)
  {
    var g := Gate(0, 0, 0, 0);
    assert g.limitLow == 0 && g.baseLow == 0 && g.baseMiddle == 0;
    assert g.access == 0 && g.attributes == 0 && g.baseHigh == 0;
  }

  /** A flat 4 GiB segment based at 0, with 4 KiB granularity and 32-bit operands. */
  lemma FullSegment(access: u8)
    ensures EntryBase(Gate(0, FullLimit, access, SegmentFlags)) == 0
    ensures EntryLimit(Gate(0, FullLimit, access, SegmentFlags)) == 0xFFFFF
    ensures Gate(0, FullLimit, access, SegmentFlags).attributes == 0xCF
    ensures Gate(0, FullLimit, access, SegmentFlags).access == access
  {
    GateRoundTrip(0, FullLimit, access, SegmentFlags);
  }

  /** The eight-page video segment based at 0. */
  lemma VideoSegment(access: u8)
    ensures EntryBase(Gate(0, VideoLimit, access, SegmentFlags)) == 0
    ensures EntryLimit(Gate(0, VideoLimit, access, SegmentFlags)) == 7
    ensures Gate(0, VideoLimit, access, SegmentFlags).attributes == 0xC0
    ensures Gate(0, VideoLimit, access, SegmentFlags).access == access
  {
    GateRoundTrip(0, VideoLimit, access, SegmentFlags);
  }

  /**
   * The access bytes init_gdt computes: present, ring 0 or ring 3, and
   * the type nibble (the descriptor-type bit S is not among the OR-ed
   * constants).
   */
  lemma AccessBytes()
    ensures KernelCodeAccess == 0x8A && KernelDataAccess == 0x82
    ensures UserDataTypedAccess == 0xE2 && UserCodeTypedAccess == 0xEA
    ensures SegmentFlags == 0xC
  {
  }

  /** The table itself and the pointer handed to the CPU. */
  class DescriptorTable {
    const entries: array<GdtEntry>
    /** The address of `entries`, which the C code takes with `&`. */
    const address: u32
    var ptrLimit: u16
    var ptrBase: u32

    predicate Valid()
      reads this
    {
      entries.Length == EntryCount
    }

    constructor(address: u32)
      ensures Valid() && fresh(entries)
      ensures this.address == address
      ensures forall i | 0 <= i < entries.Length :: entries[i] == GdtEntry(0, 0, 0, 0, 0, 0)
    {
      entries := new GdtEntry[EntryCount](_ => GdtEntry(0, 0, 0, 0, 0, 0));
      this.address := address;
      ptrLimit := 0;
      ptrBase := 0;
    }

    /** gdt_set_gate: rewrite descriptor `num` and no other. */
    method SetGate(num: int, base: u32, limit: u32, access: u8, flags: u8)
      requires Valid() && 0 <= num < EntryCount
      modifies entries
      ensures entries[..] == old(entries[..])[num := Gate(base, limit, access, flags)]
    {
      entries[num] := Gate(base, limit, access, flags);
    }

    /** init_gdt: the pointer spans the six packed descriptors, and descriptor i becomes InitGate(i). */
    method Init()
      requires Valid()
      modifies this, entries
      ensures Valid()
      ensures ptrLimit == EntryBytes * EntryCount - 1 == 47
      ensures ptrBase == address
      ensures forall i | 0 <= i < EntryCount :: entries[i] == InitGate(i)
    {
      ptrLimit := EntryBytes * EntryCount - 1;
      ptrBase := address;
      SetGate(0, 0, 0, 0, 0);
      SetGate(1, 0, FullLimit, KernelCodeAccess, SegmentFlags);
      SetGate(2, 0, FullLimit, KernelDataAccess, SegmentFlags);
      SetGate(3, 0, VideoLimit, KernelDataAccess, SegmentFlags);
      SetGate(4, 0, FullLimit, UserDataTypedAccess, SegmentFlags);
      SetGate(5, 0, FullLimit, UserCodeTypedAccess, SegmentFlags);
    }
  }
}
