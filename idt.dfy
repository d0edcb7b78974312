// The interrupt descriptor table (src/interrupt/interrupt.c,
// src/interrupt/interrupt.h, src/common/global.h): set_idt_gate's packing
// of a 32-bit interrupt gate and the table init_idt builds for the 32 CPU
// exceptions.

module Idt {
  import opened Common
  import Gdt

  /** The packed gate (interrupt.h): 2 + 2 + 1 + 1 + 2 bytes. */
  datatype IdtEntry = IdtEntry(
    handlerLow: u16,
    sel: u16,
    always0: u8,
    attrs: u8,
    handlerHigh: u16)

  const EntryBytes: nat := 2 + 2 + 1 + 1 + 2
  const EntryCount: nat := 256
  /** init_idt installs the handlers isr0 .. isr31. */
  const ExceptionCount: nat := 32

  /** An entry after the table has been cleared with memset. */
  const ZeroEntry := IdtEntry(0, 0, 0, 0, 0)

  /** RPL0 and TI_GDT, from which SELECTOR_K_CODE is built (global.h). */
  const Rpl0: nat := 0
  const TiGdt: nat := 0
  /** SELECTOR_K_CODE: descriptor 1 of the GDT, table indicator GDT, ring 0. */
  const KernelCodeSelector: u16 := 1 * 8 + TiGdt * 4 + Rpl0
  /** IDT_GATE_ATTR_DPL0: present, ring 0, 32-bit interrupt gate. */
  const GateAttrDpl0: u8 := 1 * 128 + 0 * 32 + 0xE

  /** The handler address a gate encodes. */
  function EntryHandler(e: IdtEntry): u32
  {
    e.handlerLow + e.handlerHigh * 0x1_0000
  }

  /** set_idt_gate's packing of one gate; the shift and masks are division and remainder. */
  function Gate(base: u32, sel: u16, attrs: u8): IdtEntry
  {
    IdtEntry(base % 0x1_0000, sel, 0, attrs, (base / 0x1_0000) % 0x1_0000)
  }

  /** Every 32-bit handler address survives the packing; the rest is stored as given. */
  lemma GateRoundTrip(base: u32, sel: u16, attrs: u8)
    ensures EntryHandler(Gate(base, sel, attrs)) == base
    ensures Gate(base, sel, attrs).sel == sel
    ensures Gate(base, sel, attrs).attrs == attrs
    ensures Gate(base, sel, attrs).always0 == 0
  {
    assert base == base % 0x1_0000 + (base / 0x1_0000) * 0x1_0000;
  }

  /**
   * The selector names the GDT's kernel code descriptor in ring 0, and
   * the attributes make a present ring-0 32-bit interrupt gate.
   */
  lemma KernelGateFields()
    ensures KernelCodeSelector / 8 == 1 && KernelCodeSelector % 8 == 0
    ensures Gdt.InitGate(KernelCodeSelector / 8)
         == Gdt.Gate(0, Gdt.FullLimit, Gdt.KernelCodeAccess, Gdt.SegmentFlags)
    ensures GateAttrDpl0 == 0x8E
  {
  }

  /** The table itself and the pointer handed to the CPU. */
  class InterruptTable {
    const entries: array<IdtEntry>
    /** The address of `entries`, which the C code takes with `&`. */
    const address: u32
    var ptrLimit: u16
    var ptrBase: u32

    predicate Valid()
      reads this
    {
      entries.Length == EntryCount
    }

    constructor(address: u32)
      ensures Valid() && fresh(entries)
      ensures this.address == address
      ensures forall i | 0 <= i < entries.Length :: entries[i] == ZeroEntry
    {
      entries := new IdtEntry[EntryCount](_ => ZeroEntry);
      this.address := address;
      ptrLimit := 0;
      ptrBase := 0;
    }

    /** set_idt_gate: rewrite gate `num` and no other. */
    method SetGate(num: u8, base: u32, sel: u16, attrs: u8)
      requires Valid()
      modifies entries
      ensures entries[..] == old(entries[..])[num := Gate(base, sel, attrs)]
    {
      entries[num] := Gate(base, sel, attrs);
    }

    /**
     * init_idt: the pointer spans the 256 packed gates, the table is
     * cleared, and gate i (i < 32) gets handler i with the kernel code
     * selector and ring-0 attributes. The C code spells the 32 calls out
     * one by one; they differ only in the index, so they are a loop here.
     */
    method Init(handlers: seq<u32>)
      requires Valid()
      requires |handlers| == ExceptionCount
      modifies this, entries
      ensures Valid()
      ensures ptrLimit == EntryBytes * EntryCount - 1 == 2047
      ensures ptrBase == address
      ensures forall i | 0 <= i < ExceptionCount ::
                entries[i] == Gate(handlers[i], KernelCodeSelector, GateAttrDpl0)
      ensures forall i | ExceptionCount <= i < EntryCount :: entries[i] == ZeroEntry
    {
      ptrLimit := EntryBytes * EntryCount - 1;
      ptrBase := address;

      // memset(&idt_entries, 0, sizeof(idt_entry_t) * 256)
      for i := 0 to EntryCount
        modifies entries
        invariant forall j | 0 <= j < i :: entries[j] == ZeroEntry
      {
        entries[i] := ZeroEntry;
      }

      for i := 0 to ExceptionCount
        modifies entries
        invariant forall j | 0 <= j < i ::
                    entries[j] == Gate(handlers[j], KernelCodeSelector, GateAttrDpl0)
        invariant forall j | i <= j < EntryCount :: entries[j] == ZeroEntry
      {
        SetGate(i, handlers[i], KernelCodeSelector, GateAttrDpl0);
      }
    }
  }
}
