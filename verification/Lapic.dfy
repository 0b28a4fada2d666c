/** The local APIC as the table walk programs it (`src/drivers/pic/lapic.c`). */
module Lapic {
  import opened Bits
  import opened KernelSpace
  import opened Mapping
  import opened MemoryManager
  import BootInfo

  const LAPIC_REGISTERS: nat := 0x41
  const SPIV: nat := 0x0F
  const LVT_TIMER: nat := 0x32
  const LVT_THERM: nat := 0x33
  const LVT_PERFC: nat := 0x34
  const LVT_LINT0: nat := 0x35
  const LVT_LINT1: nat := 0x36
  const LVT_ERROR: nat := 0x37

  const LVT_MASK: nat := 16
  const LVT_POLARITY: nat := 13
  const LVT_TRIGGER: nat := 5 // as the driver has it
  const LVT_TRIGGER_MODE: nat := 15 // as the chip has it (section 12.5.1 of Intel SDM Vol. 3A)

  function ZeroReg(): Reg {
    seq(32, _ => false)
  }

  function MaskedLvt(): Reg {
    ZeroReg()[LVT_MASK := true]
  }

  /** Software enable in bit 8, spurious vector 0xFF. */
  function SpuriousOn(): Reg {
    seq(32, k => k <= 8)
  }

  /** The registers that `lapic_init_begin` leaves. */
  function Begun(regs: seq<Reg>): (r: seq<Reg>)
    requires |regs| == LAPIC_REGISTERS
    ensures |r| == LAPIC_REGISTERS
  {
    regs[LVT_TIMER := MaskedLvt()][LVT_THERM := MaskedLvt()][LVT_PERFC := MaskedLvt()]
        [LVT_LINT0 := MaskedLvt()][LVT_LINT1 := MaskedLvt()][LVT_ERROR := MaskedLvt()][SPIV := SpuriousOn()]
  }

  /** The entry of a local NMI line. */
  function NmiLvt(flags: nat): Reg {
    var delivery := ZeroReg()[10 := true]; // delivery mode 100 in bits 10:8
    var placed := delivery[LVT_POLARITY := flags % 4 == 3];
    placed[LVT_TRIGGER := flags / 4 % 4 == 3]
  }

  /**
    As the chip reads it: NMI delivery, not masked, active low when the flags say so. A level-triggered request
    sets bit 5, which belongs to the vector, and never the trigger mode, bit 15.
   */
  lemma NmiLvtMeans(flags: nat)
    ensures var e := NmiLvt(flags);
      && e[8..11] == [false, false, true] && !e[LVT_MASK]
      && e[LVT_POLARITY] == (flags % 4 == 3) && !e[LVT_TRIGGER_MODE] && e[LVT_TRIGGER] == (flags / 4 % 4 == 3)
      && forall k :: 0 <= k < 32 && k != 10 && k != LVT_POLARITY && k != LVT_TRIGGER ==> !e[k]
  {
  }

  predicate ForThisProcessor(processor: nat) {
    processor == 0 || processor == 0xFF
  }

  function LintRegister(lint: nat): nat {
    if lint != 0 then LVT_LINT1 else LVT_LINT0
  }

  /** The registers after `lapic_init_nmi`: only records for the boot processor or for all count. */
  function NmiTaken(regs: seq<Reg>, processor: nat, flags: nat, lint: nat): (r: seq<Reg>)
    requires |regs| == LAPIC_REGISTERS
    ensures |r| == LAPIC_REGISTERS
  {
    if ForThisProcessor(processor) then regs[LintRegister(lint) := NmiLvt(flags)] else regs
  }

  /** The mapping of the registers where there is no x2APIC. */
  function LapicRequest(hhdm: nat, base: nat): Request {
    BootInfo.DeviceRequest(hhdm, base, 0x400, M_W)
  }

  class LocalApic {
    var regs: seq<Reg>

    predicate Valid()
      reads this
    {
      |regs| == LAPIC_REGISTERS
    }

    constructor (regs: seq<Reg>)
      requires |regs| == LAPIC_REGISTERS
      ensures Valid() && this.regs == regs
    {
      this.regs := regs;
    }

    method Write(reg: nat, value: Reg)
      requires Valid() && reg < LAPIC_REGISTERS
      modifies this
      ensures Valid() && regs == old(regs)[reg := value]
    {
      regs := regs[reg := value];
    }

    /** `lapic_init_begin`. Panics exactly when the registers have to be mapped and cannot be. */
    method InitBegin(mm: MemoryManager, x2apic: bool, base: nat) returns (ok: bool)
      requires Valid() && mm.Running() && base < TWO64
      modifies this, mm.ram, mm.ram.bytes, mm`tables
      ensures Valid() && mm.ram.Valid()
      ensures ok <==> x2apic || CanMap(old(mm.Now()), LapicRequest(mm.hhdm, base))
      ensures ok ==> regs == Begun(old(regs))
      ensures ok && x2apic ==> mm.Now() == old(mm.Now())
      ensures ok && !x2apic ==>
        var r := LapicRequest(mm.hhdm, base); Remaps(old(mm.Now()), mm.Now(), r.what, r.where, r.flags, r.Pages())
    {
      if !x2apic {
        ok := mm.VmmMapUnaligned(base, BootInfo.PhyToVirt(mm.hhdm, base), 0x400, M_W);
        if !ok { return; }
      }
      MaskLines();
      return true;
    }

    /** The register writes of `lapic_init_begin`. */
    method MaskLines()
      requires Valid()
      modifies this
      ensures Valid() && regs == Begun(old(regs))
    {
      Write(LVT_TIMER, MaskedLvt());
      Write(LVT_THERM, MaskedLvt());
      Write(LVT_PERFC, MaskedLvt());
      Write(LVT_LINT0, MaskedLvt());
      Write(LVT_LINT1, MaskedLvt());
      Write(LVT_ERROR, MaskedLvt());
      Write(SPIV, SpuriousOn());
    }

    /** `lapic_init_nmi`. */
    method InitNmi(processor: nat, flags: nat, lint: nat)
      requires Valid()
      modifies this
      ensures Valid() && regs == NmiTaken(old(regs), processor, flags, lint)
    {
      if processor == 0 || processor == 0xFF {
        var polarity := flags % 4;
        var trigger := flags / 4 % 4;
        var lvt := ZeroReg()[10 := true];
        if polarity == 0x3 {
          lvt := lvt[LVT_POLARITY := true];
        }
        if trigger == 0x3 {
          lvt := lvt[LVT_TRIGGER := true];
        }
        assert lvt == NmiLvt(flags);
        if lint != 0 {
          Write(LVT_LINT1, lvt);
        } else {
          Write(LVT_LINT0, lvt);
        }
      }
    }
  }
}
