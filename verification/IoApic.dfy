/** The I/O APIC driver (`src/drivers/pic/ioapic.c`): registers behind a select/window pair, and the routes of the ISA interrupts. */
module IoApic {
  import opened Wrappers
  import opened Bits
  import opened KernelSpace
  import opened Mapping
  import opened MemoryManager
  import BootInfo

  const REGS: nat := 0x100
  const PINS: nat := 120 // pins whose redirection entries have register numbers of their own
  const IOAPICVER: nat := 0x01
  const IDT_IDX_ISA_BASE: nat := 0x30
  const POLARITY: nat := 13
  const TRIGGER: nat := 15
  const MASKED: nat := 16

  function ZeroWord(): Word {
    seq(64, _ => false)
  }

  function MaskedEntry(): Word {
    ZeroWord()[MASKED := true]
  }

  /** Delivery mode 100 in bits 10:8. */
  function NmiDelivery(): Word {
    ZeroWord()[10 := true]
  }

  /** A register write, as the chip takes it: version and arbitration registers are read-only. */
  function Put(regs: seq<Reg>, reg: nat, value: Reg): (r: seq<Reg>)
    requires |regs| == REGS && reg < REGS
    ensures |r| == REGS
  {
    if reg == 1 || reg == 2 then regs else regs[reg := value]
  }

  /** Two 32-bit writes; the second register number is truncated to 8 bits. */
  function Put64(regs: seq<Reg>, reg: nat, value: Word): (r: seq<Reg>)
    requires |regs| == REGS && reg < REGS
    ensures |r| == REGS
  {
    Put(Put(regs, reg, value[..32]), (reg + 1) % REGS, value[32..])
  }

  /** Register number of a pin's redirection entry, truncated to 8 bits. */
  function TableReg(pin: nat): (reg: nat)
    ensures reg < REGS
  {
    (0x10 + 2 * pin) % REGS
  }

  /** The redirection entry of a pin. */
  function Pin(regs: seq<Reg>, pin: nat): Word
    requires |regs| == REGS && pin < PINS
  {
    regs[0x10 + 2 * pin][..] + regs[0x10 + 2 * pin + 1][..]
  }

  /**
    A write through any interrupt number reaches the entry of exactly the pin with the same low seven bits:
    numbers 128 apart share their registers.
   */
  lemma PutPin(regs: seq<Reg>, n: nat, value: Word, pin: nat)
    requires |regs| == REGS && pin < PINS
    ensures Pin(Put64(regs, TableReg(n), value), pin) == if n % 128 == pin then value else Pin(regs, pin)
  {
    TableRegs(n, pin);
    PutPair(regs, TableReg(n), value, 0x10 + 2 * pin);
  }

  lemma TableRegs(n: nat, pin: nat)
    requires pin < PINS
    ensures TableReg(n) == 0x10 + 2 * pin <==> n % 128 == pin
    ensures TableReg(n) % 2 == 0
  {
  }

  /** Writing the pair of registers at an even number changes that pair and no other. */
  lemma PutPair(regs: seq<Reg>, reg: nat, value: Word, at: nat)
    requires |regs| == REGS && reg < REGS && reg % 2 == 0 && at % 2 == 0 && 0x10 <= at < 0x100
    ensures var r := Put64(regs, reg, value);
      r[at][..] + r[at + 1][..] == if reg == at then value else regs[at][..] + regs[at + 1][..]
  {
  }

  /** Where an ISA interrupt goes. */
  datatype Route = Route(destination: nat, levelTriggered: bool, activeLow: bool)

  function Flagged(value: Word, activeLow: bool, levelTriggered: bool): Word {
    if levelTriggered then WithPolarity(value, activeLow)[TRIGGER := true] else WithPolarity(value, activeLow)
  }

  function WithPolarity(value: Word, activeLow: bool): Word {
    if activeLow then value[POLARITY := true] else value
  }

  /** The entry that enables an ISA interrupt. */
  function IsaEntry(irq: nat, route: Route): Word {
    Flagged(BitsOf((irq + IDT_IDX_ISA_BASE) % 0x100, 64), route.activeLow, route.levelTriggered)
  }

  lemma {:induction false} HighBitsClear(n: nat, width: nat, low: nat)
    requires low <= width && n < Pow2(low)
    ensures NatOf(BitsOf(n, width)[..low]) == n
    ensures forall k :: low <= k < width ==> !BitsOf(n, width)[k]
  {
    if width > 0 {
      var half := BitsOf(n / 2, width - 1);
      assert BitsOf(n, width) == [n % 2 == 1] + half;
      if low > 0 {
        HighBitsClear(n / 2, width - 1, low - 1);
        LowBitsOf([n % 2 == 1], half, low);
      } else {
        HighBitsClear(0, width - 1, 0);
      }
    }
  }

  lemma LowBitsOf(first: seq<bool>, rest: seq<bool>, low: nat)
    requires |first| == 1 && 0 < low <= 1 + |rest|
    ensures (first + rest)[..low] == first + rest[..low - 1]
    ensures NatOf((first + rest)[..low]) == Bit(first[0]) + 2 * NatOf(rest[..low - 1])
  {
    assert (first + rest[..low - 1])[1..] == rest[..low - 1];
  }

  /** As the chip reads it: the vector, fixed delivery to processor 0, polarity and trigger of the route, not masked. */
  predicate Delivers(e: Word, vector: nat, route: Route) {
    && NatOf(e[..8]) == vector
    && e[POLARITY] == route.activeLow && e[TRIGGER] == route.levelTriggered && !e[MASKED]
    && forall k :: 8 <= k < 64 && k != POLARITY && k != TRIGGER ==> !e[k]
  }

  lemma IsaEntryMeans(irq: nat, route: Route)
    requires irq < 16
    ensures Delivers(IsaEntry(irq, route), 0x30 + irq, route)
  {
    EightBits();
    HighBitsClear(0x30 + irq, 64, 8);
    FlaggedMeans(BitsOf(0x30 + irq, 64), 0x30 + irq, route);
  }

  lemma FlaggedMeans(value: Word, vector: nat, route: Route)
    requires NatOf(value[..8]) == vector && forall k :: 8 <= k < 64 ==> !value[k]
    ensures Delivers(Flagged(value, route.activeLow, route.levelTriggered), vector, route)
  {
  }

  lemma EightBits()
    ensures Pow2(8) == 0x100
  {
  }

  /** The driver's state and the chip's registers. */
  datatype Chip = Chip(base: nat, routes: seq<Route>, regs: seq<Reg>)
  {
    predicate Valid() {
      |routes| == 16 && |regs| == REGS && forall k :: 0 <= k < 16 ==> routes[k].destination < 0x100
    }
  }

  /** The number of redirection entries that the driver believes in: the version register's maximum entry. */
  function MaxEntry(regs: seq<Reg>): nat
    requires |regs| == REGS
  {
    NatOf(regs[IOAPICVER][16..24])
  }

  function MaskedPins(regs: seq<Reg>, k: nat): (r: seq<Reg>)
    requires |regs| == REGS
    ensures |r| == REGS
  {
    if k == 0 then regs else Put64(MaskedPins(regs, k - 1), TableReg(k - 1), MaskedEntry())
  }

  lemma LowBits(n: nat, pin: nat)
    requires n < 0x100 && pin < PINS
    ensures n % 128 == pin ==> pin <= n
    ensures n == pin ==> n % 128 == pin
  {
  }

  /** The loop masks the pins below the maximum entry, and leaves every other pin - the last one included - as it was. */
  lemma {:induction false} MaskedPinsMean(regs: seq<Reg>, k: nat, pin: nat)
    requires |regs| == REGS && k <= 0x100 && pin < PINS
    ensures Pin(MaskedPins(regs, k), pin) == if pin < k then MaskedEntry() else Pin(regs, pin)
  {
    if k > 0 {
      MaskedPinsMean(regs, k - 1, pin);
      LowBits(k - 1, pin);
      PutPin(MaskedPins(regs, k - 1), k - 1, MaskedEntry(), pin);
    }
  }

  /** The route an override asks for: polarity and trigger 3 mean active low and level. */
  function OverrideRoute(gsi: nat, flags: nat): Route {
    Route(gsi % 0x100, flags / 4 % 4 == 3, flags % 4 == 3)
  }

  /** The entry of an NMI source; any polarity or trigger but 0 counts as active low or level. */
  function NmiEntry(flags: nat): Word {
    Flagged(NmiDelivery(), flags % 4 != 0, flags / 4 % 4 != 0)
  }

  /**
    As the chip reads it: NMI delivery to processor 0, not masked. Of the values 0 (bus default), 1 (high, edge) and
    3 (low, level), the defaults and 3 are honoured and 1 is taken for 3.
   */
  lemma NmiEntryMeans(flags: nat)
    ensures var e := NmiEntry(flags);
      && e[POLARITY] == (flags % 4 != 0) && e[TRIGGER] == (flags / 4 % 4 != 0) && !e[MASKED]
      && e[8..11] == [false, false, true]
      && forall k :: 0 <= k < 64 && k != 10 && k != POLARITY && k != TRIGGER ==> !e[k]
  {
  }

  /** The chip: writing the select register chooses what the window shows. */
  class Device {
    var select: nat
    var regs: seq<Reg>

    predicate Valid()
      reads this
    {
      select < REGS && |regs| == REGS
    }

    constructor (regs: seq<Reg>)
      requires |regs| == REGS
      ensures Valid() && this.regs == regs
    {
      select := 0;
      this.regs := regs;
    }

    method WriteSelect(reg: nat)
      requires Valid() && reg < REGS
      modifies this`select
      ensures Valid() && select == reg
    {
      select := reg;
    }

    method WriteWindow(value: Reg)
      requires Valid()
      modifies this`regs
      ensures Valid() && regs == Put(old(regs), select, value)
    {
      if select != 1 && select != 2 {
        regs := regs[select := value];
      }
    }

    method ReadWindow() returns (value: Reg)
      requires Valid()
      ensures value == regs[select]
    {
      value := regs[select];
    }
  }

  class Controller {
    const device: Device
    const redirection: array<Route> // ISA_REDIRECTION_ENTRY
    var base: nat // IOAPIC_BASE, 0 until a chip is registered

    ghost predicate Valid()
      reads this, device, redirection
    {
      device.Valid() && redirection.Length == 16 && Now().Valid()
    }

    ghost function Now(): Chip
      reads this, device, redirection
    {
      Chip(base, redirection[..], device.regs)
    }

    /** The state before any table is read: interrupts go to the pin of the same number, edge-triggered, active high. */
    constructor (device: Device)
      requires device.Valid()
      ensures Valid() && fresh(redirection) && this.device == device
      ensures Now() == Chip(0, seq(16, i requires 0 <= i < 16 => Route(i, false, false)), device.regs)
    {
      this.device := device;
      redirection := new Route[16](i requires 0 <= i < 16 => Route(i, false, false));
      base := 0;
      new;
      assert redirection[..] == seq(16, i requires 0 <= i < 16 => Route(i, false, false));
    }

    method Read32(reg: nat) returns (value: Reg)
      requires Valid() && reg < REGS
      modifies device`select
      ensures Valid() && Now() == old(Now()) && value == device.regs[reg]
    {
      device.WriteSelect(reg);
      value := device.ReadWindow();
    }

    method Read64(reg: nat) returns (value: Word)
      requires Valid() && reg < REGS
      modifies device`select
      ensures Valid() && Now() == old(Now()) && value == device.regs[reg][..] + device.regs[(reg + 1) % REGS][..]
    {
      var low := Read32(reg);
      var high := Read32((reg + 1) % REGS);
      value := low[..] + high[..];
    }

    method Write32(reg: nat, value: Reg)
      requires Valid() && reg < REGS
      modifies device
      ensures Valid() && Now() == old(Now()).(regs := Put(old(device.regs), reg, value))
    {
      device.WriteSelect(reg);
      device.WriteWindow(value);
    }

    method Write64(reg: nat, value: Word)
      requires Valid() && reg < REGS
      modifies device
      ensures Valid() && Now() == old(Now()).(regs := Put64(old(device.regs), reg, value))
    {
      Write32(reg, value[..32]);
      Write32((reg + 1) % REGS, value[32..]);
    }

    method DisableInterrupt(vector: nat)
      requires Valid() && vector < 0x100
      modifies device
      ensures Valid() && Now() == old(Now()).(regs := Put64(old(device.regs), TableReg(vector), MaskedEntry()))
    {
      Write64(TableReg(vector), MaskedEntry());
    }

    /** With no chip registered the write goes through a null pointer, which faults. */
    method EnableIsaInterrupt(irq: nat) returns (ok: bool)
      requires Valid() && irq < 16
      modifies device
      ensures Valid() && (ok <==> base != 0)
      ensures Now() == if ok then old(Now()).(regs := Enabled(old(device.regs), redirection[..], irq)) else old(Now())
    {
      if base == 0 { return false; }
      var value := BitsOf((irq + IDT_IDX_ISA_BASE) % 0x100, 64);
      if redirection[irq].activeLow {
        value := value[POLARITY := true];
      }
      if redirection[irq].levelTriggered {
        value := value[TRIGGER := true];
      }
      Write64(TableReg(redirection[irq].destination), value);
      return true;
    }

    /**
      Panics on a second chip, on a chip that does not start at interrupt 0, when its registers cannot be mapped,
      and on a chip with too few pins.
     */
    method InitRegister(mm: MemoryManager, address: nat, gsiBase: nat) returns (ok: bool)
      requires Valid() && mm.Running() && address < 0x1_0000_0000
      modifies this, device, mm.ram, mm.ram.bytes, mm`tables
      ensures Valid() && mm.ram.Valid()
      ensures ok <==> Registered(old(Now()), address, gsiBase, mm.hhdm, old(mm.Now())).Some?
      ensures ok ==> Now() == Registered(old(Now()), address, gsiBase, mm.hhdm, old(mm.Now())).value
      ensures ok ==> Mapped(old(mm.Now()), mm.Now(), RegisterRequest(mm.hhdm, address))
    {
      if base != 0 { return false; }
      if gsiBase != 0 { return false; }
      base := BootInfo.PhyToVirt(mm.hhdm, address);
      ok := mm.VmmMapUnaligned(address, base, 0x20, M_CACHE_UC + M_W);
      if !ok { return; }
      ok := MaskPins();
    }

    /** The rest of `ioapic_init_register`: panics when the chip has too few pins for the ISA interrupts. */
    method MaskPins() returns (ok: bool)
      requires Valid()
      modifies device
      ensures Valid() && (ok <==> MaxEntry(old(device.regs)) >= 16)
      ensures ok ==> Now() == Chip(base, redirection[..], MaskedPins(old(device.regs), MaxEntry(old(device.regs))))
    {
      var version := Read32(IOAPICVER);
      var entries := NatOf(version[16..24]);
      NatOfBound(version[16..24]);
      EightBits();
      if entries < 16 { return false; }
      ghost var regs := device.regs;
      for i := 0 to entries
        invariant Valid() && Now() == Chip(base, redirection[..], MaskedPins(regs, i))
      {
        DisableInterrupt(i);
      }
      return true;
    }

    /** Faults like enabling when no chip is registered. */
    method InitNmiSource(flags: nat, gsi: nat) returns (ok: bool)
      requires Valid()
      modifies device
      ensures Valid() && (ok <==> base != 0)
      ensures Now() == if ok then old(Now()).(regs := Put64(old(device.regs), TableReg(gsi), NmiEntry(flags))) else old(Now())
    {
      if base == 0 { return false; }
      var polarity := flags % 4;
      var trigger := flags / 4 % 4;
      var value := NmiDelivery();
      if polarity != 0 {
        value := value[POLARITY := true];
      }
      if trigger != 0 {
        value := value[TRIGGER := true];
      }
      Write64(TableReg(gsi), value);
      return true;
    }

    /** Panics on a bus other than ISA. */
    method InitSourceOverride(bus: nat, source: nat, gsi: nat, flags: nat) returns (ok: bool)
      requires Valid() && (bus == 0 ==> source < 16)
      modifies redirection
      ensures Valid() && (ok <==> bus == 0)
      ensures Now() == if ok then old(Now()).(routes := old(redirection[..])[source := OverrideRoute(gsi, flags)]) else old(Now())
    {
      if bus != 0 { return false; }
      var polarity := flags % 4;
      var trigger := flags / 4 % 4;
      redirection[source] := Route(gsi % 0x100, trigger == 3, polarity == 3);
      assert redirection[..] == old(redirection[..])[source := OverrideRoute(gsi, flags)];
      return true;
    }
  }

  /** The registers after an ISA interrupt was enabled. */
  function Enabled(regs: seq<Reg>, routes: seq<Route>, irq: nat): (r: seq<Reg>)
    requires |regs| == REGS && irq < |routes|
    ensures |r| == REGS
  {
    Put64(regs, TableReg(routes[irq].destination), IsaEntry(irq, routes[irq]))
  }

  /** The mapping of the chip's two registers. */
  function RegisterRequest(hhdm: nat, address: nat): Request {
    BootInfo.DeviceRequest(hhdm, address, 0x20, M_CACHE_UC + M_W)
  }

  /** The state after `ioapic_init_register` when memory is in state `s`; None is a panic. */
  ghost function Registered(c: Chip, address: nat, gsiBase: nat, hhdm: nat, s: Space): Option<Chip>
    requires c.Valid() && s.Placed()
  {
    if c.base != 0 || gsiBase != 0 || !CanMap(s, RegisterRequest(hhdm, address)) || MaxEntry(c.regs) < 16 then None
    else Some(Chip(BootInfo.PhyToVirt(hhdm, address), c.routes, MaskedPins(c.regs, MaxEntry(c.regs))))
  }

  /** The request was served. */
  ghost predicate Mapped(s: Space, t: Space, r: Request)
    requires Sound(s)
  {
    Remaps(s, t, r.what, r.where, r.flags, r.Pages())
  }

  /** A registered chip has a base other than 0, because page 0 cannot be mapped; so a second one is refused. */
  lemma RegisteredOnce(c: Chip, address: nat, gsiBase: nat, hhdm: nat, s: Space)
    requires c.Valid() && s.Placed() && address < 0x1_0000_0000
    requires Registered(c, address, gsiBase, hhdm, s).Some?
    ensures Registered(c, address, gsiBase, hhdm, s).value.base != 0
  {
    RegistersTaken(address);
  }

  lemma RegistersTaken(address: nat)
    requires address < 0x1_0000_0000
    ensures RoundUp(U64(address + 0x20), PAGE_SIZE) > RoundDown(address, PAGE_SIZE)
    ensures RoundUp(U64(address + 0x20), PAGE_SIZE) < TWO64
  {
    PageRounding(address + 0x20);
    PageRounding(address);
  }

  /** Enabling an interrupt changes the entry of its pin and of no other. */
  lemma EnabledPin(regs: seq<Reg>, routes: seq<Route>, irq: nat, pin: nat)
    requires |regs| == REGS && irq < |routes| && routes[irq].destination < 0x100 && pin < PINS
    ensures Pin(Enabled(regs, routes, irq), pin) ==
            if routes[irq].destination % 128 == pin then IsaEntry(irq, routes[irq]) else Pin(regs, pin)
  {
    PutPin(regs, routes[irq].destination, IsaEntry(irq, routes[irq]), pin);
  }

  function EnabledAll(regs: seq<Reg>, routes: seq<Route>, irqs: seq<nat>): (r: seq<Reg>)
    requires |regs| == REGS && |routes| == 16 && forall k :: 0 <= k < |irqs| ==> irqs[k] < 16
    ensures |r| == REGS
  {
    if irqs == [] then regs
    else Enabled(EnabledAll(regs, routes, irqs[..|irqs| - 1]), routes, irqs[|irqs| - 1])
  }

  /** The last of the interrupts that reaches a pin. */
  function Owner(routes: seq<Route>, irqs: seq<nat>, pin: nat): (irq: Option<nat>)
    requires |routes| == 16 && forall k :: 0 <= k < |irqs| ==> irqs[k] < 16
    ensures irq.Some? ==> irq.value < 16
  {
    if irqs == [] then None
    else if routes[irqs[|irqs| - 1]].destination % 128 == pin then Some(irqs[|irqs| - 1])
    else Owner(routes, irqs[..|irqs| - 1], pin)
  }

  /** After any interrupts were enabled in any order, a pin has the entry of the last one that reaches it, or its old entry. */
  lemma {:induction false} EnabledAllPins(regs: seq<Reg>, routes: seq<Route>, irqs: seq<nat>, pin: nat)
    requires |regs| == REGS && |routes| == 16 && forall k :: 0 <= k < |irqs| ==> irqs[k] < 16
    requires forall k :: 0 <= k < 16 ==> routes[k].destination < 0x100
    requires pin < PINS
    ensures Pin(EnabledAll(regs, routes, irqs), pin) ==
            var owner := Owner(routes, irqs, pin);
            if owner.None? then Pin(regs, pin) else IsaEntry(owner.value, routes[owner.value])
  {
    if irqs != [] {
      var n := |irqs| - 1;
      EnabledAllPins(regs, routes, irqs[..n], pin);
      EnabledPin(EnabledAll(regs, routes, irqs[..n]), routes, irqs[n], pin);
    }
  }

  /** Interrupts with pins of their own below 120 never overwrite each other: each entry stays on its pin. */
  lemma DistinctPinsKept(regs: seq<Reg>, routes: seq<Route>, irqs: seq<nat>, irq: nat)
    requires |regs| == REGS && |routes| == 16 && forall k :: 0 <= k < |irqs| ==> irqs[k] < 16
    requires forall k :: 0 <= k < 16 ==> routes[k].destination < 0x100
    requires irq in irqs && forall k :: 0 <= k < |irqs| ==> routes[irqs[k]].destination < PINS
    requires forall k :: 0 <= k < |irqs| && irqs[k] != irq ==> routes[irqs[k]].destination != routes[irq].destination
    ensures Pin(EnabledAll(regs, routes, irqs), routes[irq].destination) == IsaEntry(irq, routes[irq])
  {
    OwnerOfPin(routes, irqs, irq);
    EnabledAllPins(regs, routes, irqs, routes[irq].destination);
  }

  lemma {:induction false} OwnerOfPin(routes: seq<Route>, irqs: seq<nat>, irq: nat)
    requires |routes| == 16 && forall k :: 0 <= k < |irqs| ==> irqs[k] < 16
    requires irq in irqs && forall k :: 0 <= k < |irqs| ==> routes[irqs[k]].destination < PINS
    requires forall k :: 0 <= k < |irqs| && irqs[k] != irq ==> routes[irqs[k]].destination != routes[irq].destination
    ensures Owner(routes, irqs, routes[irq].destination) == Some(irq)
  {
    if irqs[|irqs| - 1] != irq {
      OwnerOfPin(routes, irqs[..|irqs| - 1], irq);
    }
  }

  /** A written entry is read back whole from any pin below 120. */
  lemma ReadBack(regs: seq<Reg>, pin: nat, value: Word)
    requires |regs| == REGS && pin < PINS
    ensures var r := Put64(regs, TableReg(pin), value);
      r[TableReg(pin)][..] + r[(TableReg(pin) + 1) % REGS][..] == value == Pin(r, pin)
  {
  }
}
