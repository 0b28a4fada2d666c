/** A machine on which every assumption of the boot theorems holds, which starts, and whose drivers map their devices. */
module Example {
  import opened Wrappers
  import opened Bits
  import opened PhysicalMemory
  import opened Bitmap
  import opened Paging
  import opened KernelSpace
  import opened Mapping
  import opened MapTheorems
  import opened BootInfo
  import opened BootTheorems
  import opened MemoryManager
  import opened Runs
  import opened BringUp
  import opened Startup
  import IoApic
  import Lapic

  function ExampleMemory(): seq<MemmapEntry> {
    [MemmapEntry(0x1000, 0x9_E000, Usable), MemmapEntry(0x10_0000, 0x1FE0_0000, Usable),
     MemmapEntry(0x1FF0_0000, 0x8_0000, BootloaderReclaimable), MemmapEntry(0x1FF8_0000, 0x4_0000, ExecutableAndModules),
     MemmapEntry(0x1FFC_0000, 0x1_0000, AcpiReclaimable), MemmapEntry(0xFD00_0000, 0x30_0000, Framebuffer)]
  }

  function ExampleSegments(): seq<Phdr> {
    [Phdr(Load, 0, 0x3000, 4), Phdr(Load, 0x3000, 0x8000, 5), Phdr(Load, 0xB000, 0x2000, 6), Phdr(GnuRelro, 0xB000, 0x1000, 4)]
  }

  /** A machine with 512 MBytes, a frame buffer, and a kernel in the top 2 GBytes, as the boot protocol sets it up. */
  function ExampleBoot(): Boot {
    Boot(ExampleMemory(), 0xFFFF_8000_0000_0000, 0x10_0000, ExampleSegments(), 0x1FF8_0000, 0xFFFF_FFFF_8000_0000, 0x40)
  }

  lemma ExampleMemoryOk()
    ensures Disjoint(ExampleMemory()) && WellFormed(ExampleMemory(), 0x1_0000_0000)
  {
    ExampleDisjoint();
  }

  lemma ExampleDisjoint()
    ensures Disjoint(ExampleMemory())
  {
    var es := ExampleMemory();
    assert forall i :: 0 <= i < |es| - 1 ==> es[i].End() <= es[i + 1].base;
  }

  lemma ExampleWindows()
    ensures Straight(0xFFFF_8000_0000_0000, 0x10_0000) && Straight(0xFFFF_FFFF_8000_0000, 0x40)
    ensures Vpn(0xFFFF_8000_0000_0000) == 0x8_0000_0000 && Vpn(0xFFFF_FFFF_8000_0000) == 0xF_FFF8_0000
  {
  }

  lemma ExampleHhdmOk()
    ensures HhdmOk(ExampleMemory(), 0xFFFF_8000_0000_0000, 0x10_0000)
  {
    ExampleWindows();
  }

  lemma ExampleImageOk()
    ensures ImageOk(ExampleSegments(), 0x1FF8_0000, 0xFFFF_FFFF_8000_0000, 0x40) && SegmentsSafe(ExampleSegments())
  {
    ExampleWindows();
  }

  /** The preconditions on a boot can be met. */
  lemma ExampleBootOk()
    ensures ExampleBoot().Ok() && AbovePageZero(ExampleBoot()) && SegmentsSafe(ExampleSegments())
    ensures WellFormed(ExampleMemory(), 0x1_0000_0000)
  {
    ExampleMemoryOk();
    ExampleHhdmOk();
    ExampleImageOk();
    ExampleWindows();
  }

  const IOAPIC: nat := 0xFEC0_0000
  const LAPIC: nat := 0xFEE0_0000

  lemma ExampleRam()
    ensures forall p :: p in RamPages(ExampleBoot()) ==> p < 0x2_0000
  {
    forall p | p in RamPages(ExampleBoot())
      ensures p < 0x2_0000
    {
      var i := RamEntry(ExampleBoot(), p);
    }
  }

  /** The mapping of a device above the RAM of this machine is proper. */
  lemma ExampleDevice(a: nat, size: nat, flags: nat)
    requires 0x2000_0000 <= a < a + size <= 0x1_0000_0000
    ensures Proper(ExampleBoot(), [Map(DeviceRequest(0xFFFF_8000_0000_0000, a, size, flags))])
  {
    ExampleBootOk();
    ExampleRam();
    ExampleWindows();
    DeviceProper(ExampleBoot(), 0x10_0000, a, size, flags);
  }

  /** The mappings that the interrupt controllers ask for on this machine are proper. */
  lemma ExampleDevicesProper()
    ensures var ioapic, lapic := Map(IoApic.RegisterRequest(0xFFFF_8000_0000_0000, IOAPIC)), Map(Lapic.LapicRequest(0xFFFF_8000_0000_0000, LAPIC));
      Proper(ExampleBoot(), [ioapic] + [lapic])
  {
    ExampleDevice(IOAPIC, 0x20, M_CACHE_UC + M_W);
    ExampleDevice(LAPIC, 0x400, M_W);
    ProperTogether(ExampleBoot(), [Map(IoApic.RegisterRequest(0xFFFF_8000_0000_0000, IOAPIC))],
                   [Map(Lapic.LapicRequest(0xFFFF_8000_0000_0000, LAPIC))]);
  }

  lemma ExampleHome()
    ensures BitmapHome(ExampleBoot(), 0) && BitmapFrames(0x1000, TotalPages(ExampleMemory())) == Range(1, 33)
  {
    ExampleHighest();
  }

  lemma ExampleHighest()
    ensures TotalPages(ExampleMemory()) == 0xF_D300
  {
    var es := ExampleMemory();
    assert HighestEnd(es, 1) == 0x9_F000;
    assert HighestEnd(es, 2) == 0x1FF0_0000;
    assert HighestEnd(es, 3) == 0x1FF8_0000;
    assert HighestEnd(es, 4) == 0x1FFC_0000;
    assert HighestEnd(es, 5) == 0x1FFD_0000;
    assert HighestEnd(es, 6) == 0xFD30_0000;
  }

  /** This machine starts. */
  lemma ExampleStarts()
    ensures CanStart(ExampleBoot())
  {
    ExampleBootOk();
    ExampleHome();
    ExampleFree();
    FewTables();
    EnoughToStart(ExampleBoot(), 0);
  }

  lemma FewTables()
    ensures MostTables(0x10_0000) + MostTables(0x40) < 0x1_FE00
  {
  }

  lemma ExampleFree()
    ensures |FreeAtBoot(ExampleBoot(), 0)| >= 0x1_FE00
  {
    var b := ExampleBoot();
    ExampleHome();
    forall p | p in Range(0x100, 0x1_FF00)
      ensures p in FreeAtBoot(b, 0)
    {
      assert p in b.entries[1].Pages();
      ClaimedHas(b.entries, Init, |b.entries|, p);
    }
    RangeCount(0x100, 0x1_FF00);
    SubsetCount(Range(0x100, 0x1_FF00), FreeAtBoot(b, 0));
  }
}
