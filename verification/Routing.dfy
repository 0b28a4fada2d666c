/**
  Where the table sends the interrupts: what the walk leaves in the registers of both controllers, said of the bytes
  of the table and the bits of the entries.
 */
module Routing {
  import opened Wrappers
  import opened Bits
  import opened Paging
  import opened KernelSpace
  import opened Mapping
  import opened BringUp
  import opened IoApic
  import opened Lapic
  import opened Madt

  /** Where the records start: each length byte leads to the next one. */
  function Offsets(mem: seq<byte>, a: nat, end: nat): (o: seq<nat>)
    requires end + LONGEST <= |mem| && Tiled(mem, a, end)
    ensures Decoded(mem, o, Records(mem, a, end))
    decreases end - a
  {
    if a == end then []
    else
      var next := a + mem[a + 1];
      DecodedThen(mem, a, Offsets(mem, next, end), Records(mem, next, end));
      [a] + Offsets(mem, next, end)
  }

  lemma DecodedThen(mem: seq<byte>, a: nat, o: seq<nat>, rs: seq<Record>)
    requires a + LONGEST <= |mem| && Decoded(mem, o, rs)
    ensures Decoded(mem, [a] + o, [RecordAt(mem, a)] + rs)
  {
  }

  predicate Inside(mem: seq<byte>, o: seq<nat>) {
    forall k :: 0 <= k < |o| ==> o[k] + LONGEST <= |mem|
  }

  predicate Decoded(mem: seq<byte>, o: seq<nat>, rs: seq<Record>) {
    |o| == |rs| && Inside(mem, o) && forall k :: 0 <= k < |o| ==> rs[k] == RecordAt(mem, o[k])
  }

  // ----- The records that matter, as bytes

  /** An interrupt source override of the ISA bus for `irq`. */
  predicate Overrides(mem: seq<byte>, a: nat, irq: nat)
    requires a + LONGEST <= |mem|
  {
    mem[a] == 2 && mem[a + 2] == 0 && mem[a + 3] == irq
  }

  /** An NMI source whose interrupt number has the low seven bits `pin`. */
  predicate NmiAt(mem: seq<byte>, a: nat, pin: nat)
    requires a + LONGEST <= |mem|
  {
    mem[a] == 3 && mem[a + 4] % 128 == pin
  }

  /** A local APIC NMI for the boot processor or for all, for the line behind register `reg`. */
  predicate Wires(mem: seq<byte>, a: nat, reg: nat)
    requires a + LONGEST <= |mem|
  {
    mem[a] == 4 && (mem[a + 2] == 0 || mem[a + 2] == 0xFF) && reg == (if mem[a + 5] == 0 then 0x35 else 0x36)
  }

  predicate IoApicAt(mem: seq<byte>, a: nat)
    requires a + LONGEST <= |mem|
  {
    mem[a] == 1
  }

  predicate ChipBefore(mem: seq<byte>, o: seq<nat>, n: nat)
    requires Inside(mem, o) && n <= |o|
  {
    exists j :: 0 <= j < n && IoApicAt(mem, o[j])
  }

  function LastOverride(mem: seq<byte>, o: seq<nat>, n: nat, irq: nat): (k: Option<nat>)
    requires Inside(mem, o) && n <= |o|
    ensures k.Some? ==> k.value < n && Overrides(mem, o[k.value], irq)
    ensures forall j :: 0 <= j < n && (k.Some? ==> j > k.value) ==> !Overrides(mem, o[j], irq)
  {
    if n == 0 then None
    else if Overrides(mem, o[n - 1], irq) then Some(n - 1)
    else LastOverride(mem, o, n - 1, irq)
  }

  function LastNmi(mem: seq<byte>, o: seq<nat>, n: nat, pin: nat): (k: Option<nat>)
    requires Inside(mem, o) && n <= |o|
    ensures k.Some? ==> k.value < n && NmiAt(mem, o[k.value], pin)
    ensures forall j :: 0 <= j < n && (k.Some? ==> j > k.value) ==> !NmiAt(mem, o[j], pin)
  {
    if n == 0 then None
    else if NmiAt(mem, o[n - 1], pin) then Some(n - 1)
    else LastNmi(mem, o, n - 1, pin)
  }

  function LastWired(mem: seq<byte>, o: seq<nat>, n: nat, reg: nat): (k: Option<nat>)
    requires Inside(mem, o) && n <= |o|
    ensures k.Some? ==> k.value < n && Wires(mem, o[k.value], reg)
    ensures forall j :: 0 <= j < n && (k.Some? ==> j > k.value) ==> !Wires(mem, o[j], reg)
  {
    if n == 0 then None
    else if Wires(mem, o[n - 1], reg) then Some(n - 1)
    else LastWired(mem, o, n - 1, reg)
  }

  // ----- The walk up to its n-th record

  /** What a walk over records `rs` at offsets `o` starts from: no I/O APIC is registered. */
  ghost predicate Walk(mem: seq<byte>, o: seq<nat>, rs: seq<Record>, c: Pics, s: Space) {
    Decoded(mem, o, rs) && RecordsOk(rs) && c.Valid() && c.chip.base == 0 && s.Placed()
  }

  lemma Step(mem: seq<byte>, o: seq<nat>, rs: seq<Record>, c: Pics, hhdm: nat, s: Space, n: nat)
    requires Walk(mem, o, rs, c, s) && n < |o|
    ensures RecordsOk(rs[..n]) && RecordsOk(rs[..n + 1]) && RecordOk(RecordAt(mem, o[n]))
    ensures var before := ApplyAll(c, rs[..n], hhdm, s);
      ApplyAll(c, rs[..n + 1], hhdm, s) == if before.None? then None else Apply(before.value, RecordAt(mem, o[n]), hhdm, s)
  {
    assert rs[..n + 1] == rs[..n] + [rs[n]];
    ApplyAllThen(c, rs[..n], rs[n], hhdm, s);
  }

  lemma LowBytes(mem: seq<byte>, a: nat)
    requires a + LONGEST <= |mem|
    ensures U32(mem, a + 4) % 0x100 == mem[a + 4] && U32(mem, a + 4) % 128 == mem[a + 4] % 128
    ensures U32(mem, a + 8) == 0 <==> mem[a + 8] == mem[a + 9] == mem[a + 10] == mem[a + 11] == 0
  {
    LowByte(mem[a + 4], mem[a + 5] + 0x100 * U16(mem, a + 6));
  }

  lemma LowByte(b: nat, rest: nat)
    requires b < 0x100
    ensures (b + 0x100 * rest) % 0x100 == b && (b + 0x100 * rest) % 128 == b % 128
  {
  }

  lemma LowFlags(mem: seq<byte>, a: nat)
    requires a + 2 <= |mem|
    ensures U16(mem, a) % 4 == mem[a] % 4 && U16(mem, a) / 4 % 4 == mem[a] / 4 % 4
  {
    assert U16(mem, a) / 4 == mem[a] / 4 + 0x40 * (mem[a + 1] as nat);
  }

  /** The version register is read-only. */
  lemma {:induction false} VersionKept(regs: seq<Reg>, k: nat)
    requires |regs| == REGS
    ensures MaskedPins(regs, k)[1] == regs[1]
  {
    if k > 0 { VersionKept(regs, k - 1); }
  }

  lemma {:induction false} ChipRegistered(mem: seq<byte>, o: seq<nat>, rs: seq<Record>, c: Pics, hhdm: nat, s: Space, n: nat)
    requires Walk(mem, o, rs, c, s) && n <= |o|
    ensures RecordsOk(rs[..n])
    ensures var after := ApplyAll(c, rs[..n], hhdm, s);
      after.Some? ==> (after.value.chip.base != 0 <==> ChipBefore(mem, o, n)) && after.value.chip.regs[1] == c.chip.regs[1]
  {
    if n > 0 {
      ChipRegistered(mem, o, rs, c, hhdm, s, n - 1);
      Step(mem, o, rs, c, hhdm, s, n - 1);
      var before, after := ApplyAll(c, rs[..n - 1], hhdm, s), ApplyAll(c, rs[..n], hhdm, s);
      if after.Some? {
        BaseStep(before.value, after.value, RecordAt(mem, o[n - 1]), hhdm, s);
        ChipStep(mem, o, n - 1);
      }
    }
  }

  lemma ChipStep(mem: seq<byte>, o: seq<nat>, n: nat)
    requires Inside(mem, o) && n < |o|
    ensures ChipBefore(mem, o, n + 1) <==> ChipBefore(mem, o, n) || IoApicAt(mem, o[n])
  {
  }

  /** Only an I/O APIC record registers a chip. */
  lemma BaseStep(c: Pics, c': Pics, r: Record, hhdm: nat, s: Space)
    requires c.Valid() && c'.Valid() && s.Placed() && RecordOk(r) && Apply(c, r, hhdm, s) == Some(c')
    ensures c'.chip.base != 0 <==> c.chip.base != 0 || r.IoApicRecord?
    ensures c'.chip.regs[1] == c.chip.regs[1]
  {
    if r.IoApicRecord? {
      RegisteredOnce(c.chip, r.address, r.gsiBase, hhdm, s);
      VersionKept(c.chip.regs, MaxEntry(c.chip.regs));
    }
  }

  // ----- When the walk returns

  /** The chip's registers can be mapped writable and uncached. */
  ghost predicate ChipFits(s: Space, hhdm: nat, address: nat)
    requires s.Placed()
  {
    CanMap(s, AlignedRequest(address, (address + hhdm) % TWO64, 0x20, 0x9))
  }

  /**
    The k-th record is acceptable: of a known type; an override of bus 0; an I/O APIC that is the first one, starts at
    interrupt 0, can be mapped and has at least 16 pins by the version register; an NMI source after the I/O APIC.
   */
  ghost predicate Accepted(mem: seq<byte>, o: seq<nat>, k: nat, version: Reg, hhdm: nat, s: Space)
    requires Inside(mem, o) && k < |o| && s.Placed()
  {
    && mem[o[k]] <= 4
    && (mem[o[k]] == 2 ==> mem[o[k] + 2] == 0)
    && (mem[o[k]] == 3 ==> ChipBefore(mem, o, k))
    && (mem[o[k]] == 1 ==>
      && !ChipBefore(mem, o, k) && NatOf(version[16..24]) >= 16
      && mem[o[k] + 8] == mem[o[k] + 9] == mem[o[k] + 10] == mem[o[k] + 11] == 0
      && ChipFits(s, hhdm, U32(mem, o[k] + 4)))
  }

  ghost predicate AllAccepted(mem: seq<byte>, o: seq<nat>, n: nat, version: Reg, hhdm: nat, s: Space)
    requires Inside(mem, o) && n <= |o| && s.Placed()
  {
    forall k :: 0 <= k < n ==> Accepted(mem, o, k, version, hhdm, s)
  }

  /** The walk returns if and only if every record is acceptable; it panics or faults otherwise. */
  lemma WalkReturns(mem: seq<byte>, length: nat, c: Pics, hhdm: nat, s: Space, o: seq<nat>)
    requires HEADER <= length && length + LONGEST <= |mem| && Tiled(mem, HEADER, length) && o == Offsets(mem, HEADER, length)
    requires Walk(mem, o, Records(mem, HEADER, length), c, s)
    ensures ApplyAll(c, Records(mem, HEADER, length), hhdm, s).Some? <==> AllAccepted(mem, o, |o|, c.chip.regs[1], hhdm, s)
  {
    var rs := Records(mem, HEADER, length);
    assert rs[..|o|] == rs;
    PrefixReturns(mem, o, rs, c, hhdm, s, |o|);
  }

  lemma {:induction false} PrefixReturns(mem: seq<byte>, o: seq<nat>, rs: seq<Record>, c: Pics, hhdm: nat, s: Space, n: nat)
    requires Walk(mem, o, rs, c, s) && n <= |o|
    ensures RecordsOk(rs[..n])
    ensures ApplyAll(c, rs[..n], hhdm, s).Some? <==> AllAccepted(mem, o, n, c.chip.regs[1], hhdm, s)
  {
    if n > 0 {
      PrefixReturns(mem, o, rs, c, hhdm, s, n - 1);
      Step(mem, o, rs, c, hhdm, s, n - 1);
      ChipRegistered(mem, o, rs, c, hhdm, s, n - 1);
      AcceptedStep(mem, o, n - 1, c.chip.regs[1], hhdm, s);
      var before := ApplyAll(c, rs[..n - 1], hhdm, s);
      if before.Some? { RecordAccepted(mem, o, n - 1, before.value, hhdm, s); }
    }
  }

  lemma AcceptedStep(mem: seq<byte>, o: seq<nat>, n: nat, version: Reg, hhdm: nat, s: Space)
    requires Inside(mem, o) && n < |o| && s.Placed()
    ensures AllAccepted(mem, o, n + 1, version, hhdm, s) <==>
      AllAccepted(mem, o, n, version, hhdm, s) && Accepted(mem, o, n, version, hhdm, s)
  {
  }

  lemma RecordAccepted(mem: seq<byte>, o: seq<nat>, k: nat, c: Pics, hhdm: nat, s: Space)
    requires Inside(mem, o) && k < |o| && c.Valid() && s.Placed() && RecordOk(RecordAt(mem, o[k]))
    requires c.chip.base != 0 <==> ChipBefore(mem, o, k)
    ensures Apply(c, RecordAt(mem, o[k]), hhdm, s).Some? <==> Accepted(mem, o, k, c.chip.regs[1], hhdm, s)
  {
    LowBytes(mem, o[k]);
    ChipRequest(hhdm, U32(mem, o[k] + 4));
  }

  lemma ChipRequest(hhdm: nat, address: nat)
    ensures RegisterRequest(hhdm, address) == AlignedRequest(address, (address + hhdm) % TWO64, 0x20, 0x9)
  {
  }

  // ----- The redirection entries

  /** What a register-pair entry is after an NMI source with low flags byte `flags`: NMI delivery, any polarity or trigger but 0 counts. */
  predicate DeliversNmi(e: Word, flags: nat) {
    && (e[13] <==> flags % 4 != 0) && (e[15] <==> flags / 4 % 4 != 0)
    && e[10] && forall k :: 0 <= k < 64 && k != 10 && k != 13 && k != 15 ==> !e[k]
  }

  /** Only the mask bit is set. */
  predicate OnlyMasked(e: Word) {
    forall k :: 0 <= k < 64 ==> (e[k] <==> k == 16)
  }

  /** The entry of a pin after `n` records, when the version register says there are `max` entries. */
  predicate PinHolds(mem: seq<byte>, o: seq<nat>, n: nat, pin: nat, max: nat, before: Word, after: Word)
    requires Inside(mem, o) && n <= |o|
  {
    var k := LastNmi(mem, o, n, pin);
    if k.Some? then DeliversNmi(after, mem[o[k.value] + 2])
    else if ChipBefore(mem, o, n) && pin < max then OnlyMasked(after)
    else after == before
  }

  /**
    After the walk a pin has the entry of the last NMI source whose number has the same low seven bits; without one it is masked
    when the table has an I/O APIC and the pin is below the maximum entry, and otherwise it keeps its entry.
   */
  lemma PinsAfterWalk(mem: seq<byte>, length: nat, c: Pics, hhdm: nat, s: Space, o: seq<nat>, pin: nat)
    requires HEADER <= length && length + LONGEST <= |mem| && Tiled(mem, HEADER, length) && o == Offsets(mem, HEADER, length)
    requires Walk(mem, o, Records(mem, HEADER, length), c, s) && ApplyAll(c, Records(mem, HEADER, length), hhdm, s).Some?
    requires pin < PINS
    ensures PinHolds(mem, o, |o|, pin, NatOf(c.chip.regs[1][16..24]),
                     Pin(c.chip.regs, pin), Pin(ApplyAll(c, Records(mem, HEADER, length), hhdm, s).value.chip.regs, pin))
  {
    var rs := Records(mem, HEADER, length);
    assert rs[..|o|] == rs;
    PinAfter(mem, o, rs, c, hhdm, s, |o|, pin);
  }

  lemma {:induction false} PinAfter(mem: seq<byte>, o: seq<nat>, rs: seq<Record>, c: Pics, hhdm: nat, s: Space, n: nat, pin: nat)
    requires Walk(mem, o, rs, c, s) && n <= |o| && pin < PINS
    ensures RecordsOk(rs[..n])
    ensures var after := ApplyAll(c, rs[..n], hhdm, s);
      after.Some? ==> PinHolds(mem, o, n, pin, NatOf(c.chip.regs[1][16..24]), Pin(c.chip.regs, pin), Pin(after.value.chip.regs, pin))
  {
    if n > 0 {
      PinAfter(mem, o, rs, c, hhdm, s, n - 1, pin);
      Step(mem, o, rs, c, hhdm, s, n - 1);
      ChipRegistered(mem, o, rs, c, hhdm, s, n - 1);
      var before, after := ApplyAll(c, rs[..n - 1], hhdm, s), ApplyAll(c, rs[..n], hhdm, s);
      NmiAfterChip(mem, o, rs, c, hhdm, s, n - 1, pin);
      if after.Some? {
        PinWritten(mem, o[n - 1], pin, c.chip.regs[1], before.value, after.value, hhdm, s);
        PinNext(mem, o, n - 1, pin, NatOf(c.chip.regs[1][16..24]), Pin(c.chip.regs, pin), Pin(before.value.chip.regs, pin), Pin(after.value.chip.regs, pin));
      }
    }
  }

  /** What record `a` does to the entry of a pin. */
  predicate PinTaken(mem: seq<byte>, a: nat, pin: nat, max: nat, e: Word, e': Word)
    requires a + LONGEST <= |mem|
  {
    if NmiAt(mem, a, pin) then DeliversNmi(e', mem[a + 2])
    else if IoApicAt(mem, a) && pin < max then OnlyMasked(e')
    else e' == e
  }

  lemma PinNext(mem: seq<byte>, o: seq<nat>, n: nat, pin: nat, max: nat, start: Word, e: Word, e': Word)
    requires Inside(mem, o) && n < |o| && PinHolds(mem, o, n, pin, max, start, e) && PinTaken(mem, o[n], pin, max, e, e')
    requires IoApicAt(mem, o[n]) ==> !ChipBefore(mem, o, n)
    requires ChipBefore(mem, o, n) || forall j :: 0 <= j < n ==> !NmiAt(mem, o[j], pin)
    ensures PinHolds(mem, o, n + 1, pin, max, start, e')
  {
    ChipStep(mem, o, n);
  }

  /** The walk has met no NMI source before the I/O APIC. */
  lemma NmiAfterChip(mem: seq<byte>, o: seq<nat>, rs: seq<Record>, c: Pics, hhdm: nat, s: Space, n: nat, pin: nat)
    requires Walk(mem, o, rs, c, s) && n <= |o|
    ensures RecordsOk(rs[..n])
    ensures ApplyAll(c, rs[..n], hhdm, s).Some? && !ChipBefore(mem, o, n) ==> forall j :: 0 <= j < n ==> !NmiAt(mem, o[j], pin)
  {
    PrefixReturns(mem, o, rs, c, hhdm, s, n);
    if ApplyAll(c, rs[..n], hhdm, s).Some? && !ChipBefore(mem, o, n) {
      forall j | 0 <= j < n
        ensures !NmiAt(mem, o[j], pin)
      {
        assert Accepted(mem, o, j, c.chip.regs[1], hhdm, s);
      }
    }
  }

  lemma NmiWritten(mem: seq<byte>, a: nat, pin: nat, regs: seq<Reg>)
    requires a + LONGEST <= |mem| && mem[a] == 3 && |regs| == REGS && pin < PINS
    ensures var e := Pin(Put64(regs, TableReg(U32(mem, a + 4)), NmiEntry(U16(mem, a + 2))), pin);
      if NmiAt(mem, a, pin) then DeliversNmi(e, mem[a + 2]) else e == Pin(regs, pin)
  {
    LowBytes(mem, a);
    LowFlags(mem, a + 2);
    NmiEntryMeans(U16(mem, a + 2));
    PutPin(regs, U32(mem, a + 4), NmiEntry(U16(mem, a + 2)), pin);
  }

  lemma ChipMasked(regs: seq<Reg>, version: Reg, pin: nat)
    requires |regs| == REGS && regs[1] == version && pin < PINS
    ensures var e := Pin(MaskedPins(regs, MaxEntry(regs)), pin);
      if pin < NatOf(version[16..24]) then OnlyMasked(e) else e == Pin(regs, pin)
  {
    NatOfBound(version[16..24]);
    EightBits();
    MaskedPinsMean(regs, MaxEntry(regs), pin);
  }

  lemma PinWritten(mem: seq<byte>, a: nat, pin: nat, version: Reg, c: Pics, c': Pics, hhdm: nat, s: Space)
    requires a + LONGEST <= |mem| && c.Valid() && c'.Valid() && s.Placed() && RecordOk(RecordAt(mem, a)) && pin < PINS
    requires Apply(c, RecordAt(mem, a), hhdm, s) == Some(c') && c.chip.regs[1] == version
    ensures PinTaken(mem, a, pin, NatOf(version[16..24]), Pin(c.chip.regs, pin), Pin(c'.chip.regs, pin))
    ensures IoApicAt(mem, a) ==> c.chip.base == 0
  {
    if mem[a] == 3 {
      NmiWritten(mem, a, pin, c.chip.regs);
    } else if mem[a] == 1 {
      ChipMasked(c.chip.regs, version, pin);
    }
  }

  // ----- The ISA interrupts

  /** What the kernel starts with: interrupts go to the pin of the same number, edge-triggered and active high. */
  predicate Identity(c: Chip) {
    c.Valid() && c.base == 0 && forall irq :: 0 <= irq < 16 ==> c.routes[irq] == Route(irq, false, false)
  }

  /** Route of an interrupt after `n` records: the number, trigger and polarity of its last override. */
  predicate Routed(mem: seq<byte>, o: seq<nat>, n: nat, irq: nat, before: Route, after: Route)
    requires Inside(mem, o) && n <= |o|
  {
    var k := LastOverride(mem, o, n, irq);
    if k.None? then after == before
    else
      var a := o[k.value];
      after == Route(mem[a + 4], mem[a + 8] / 4 % 4 == 3, mem[a + 8] % 4 == 3)
  }

  lemma {:induction false} RouteAfter(mem: seq<byte>, o: seq<nat>, rs: seq<Record>, c: Pics, hhdm: nat, s: Space, n: nat, irq: nat)
    requires Walk(mem, o, rs, c, s) && n <= |o| && irq < 16
    ensures RecordsOk(rs[..n])
    ensures var after := ApplyAll(c, rs[..n], hhdm, s);
      after.Some? ==> Routed(mem, o, n, irq, c.chip.routes[irq], after.value.chip.routes[irq])
  {
    if n > 0 {
      RouteAfter(mem, o, rs, c, hhdm, s, n - 1, irq);
      Step(mem, o, rs, c, hhdm, s, n - 1);
      var before, after := ApplyAll(c, rs[..n - 1], hhdm, s), ApplyAll(c, rs[..n], hhdm, s);
      if after.Some? { RouteStep(mem, o, n - 1, irq, c.chip.routes[irq], before.value, after.value, hhdm, s); }
    }
  }

  lemma RouteStep(mem: seq<byte>, o: seq<nat>, n: nat, irq: nat, start: Route, c: Pics, c': Pics, hhdm: nat, s: Space)
    requires Inside(mem, o) && n < |o| && c.Valid() && c'.Valid() && s.Placed() && RecordOk(RecordAt(mem, o[n])) && irq < 16
    requires Routed(mem, o, n, irq, start, c.chip.routes[irq]) && Apply(c, RecordAt(mem, o[n]), hhdm, s) == Some(c')
    ensures Routed(mem, o, n + 1, irq, start, c'.chip.routes[irq])
  {
    LowBytes(mem, o[n]);
    LowFlags(mem, o[n] + 8);
  }

  /** An unmasked entry: the vector, fixed delivery to processor 0, polarity and trigger. */
  predicate DeliversIsa(e: Word, vector: nat, activeLow: bool, levelTriggered: bool) {
    && NatOf(e[..8]) == vector && (e[13] <==> activeLow) && (e[15] <==> levelTriggered)
    && forall k :: 8 <= k < 64 && k != 13 && k != 15 ==> !e[k]
  }

  /** The entry of a pin after `irq` was enabled, with the table's records at `o`. */
  predicate Enables(mem: seq<byte>, o: seq<nat>, irq: nat, pin: nat, before: Word, after: Word)
    requires Inside(mem, o)
  {
    var k := LastOverride(mem, o, |o|, irq);
    if k.None? then
      if pin == irq then DeliversIsa(after, 0x30 + irq, false, false) else after == before
    else
      var a := o[k.value];
      if pin == mem[a + 4] % 128 then DeliversIsa(after, 0x30 + irq, mem[a + 8] % 4 == 3, mem[a + 8] / 4 % 4 == 3)
      else after == before
  }

  /**
    From the bytes of the table to the entries: after the walk, enabling an interrupt programs the pin its last override
    names - active low exactly for polarity 3, level-triggered exactly for trigger 3 - or without one the pin of its own number,
    and no other pin.
   */
  lemma IsaRouting(mem: seq<byte>, length: nat, c: Pics, hhdm: nat, s: Space, o: seq<nat>, irq: nat, pin: nat)
    requires HEADER <= length && length + LONGEST <= |mem| && Tiled(mem, HEADER, length) && o == Offsets(mem, HEADER, length)
    requires Walk(mem, o, Records(mem, HEADER, length), c, s) && ApplyAll(c, Records(mem, HEADER, length), hhdm, s).Some?
    requires Identity(c.chip) && irq < 16 && pin < PINS
    ensures var chip := ApplyAll(c, Records(mem, HEADER, length), hhdm, s).value.chip;
      Enables(mem, o, irq, pin, Pin(chip.regs, pin), Pin(Enabled(chip.regs, chip.routes, irq), pin))
  {
    var rs := Records(mem, HEADER, length);
    assert rs[..|o|] == rs;
    RouteAfter(mem, o, rs, c, hhdm, s, |o|, irq);
    RouteEnabled(mem, o, irq, pin, ApplyAll(c, rs, hhdm, s).value.chip);
  }

  lemma RouteEnabled(mem: seq<byte>, o: seq<nat>, irq: nat, pin: nat, chip: Chip)
    requires Inside(mem, o) && chip.Valid() && irq < 16 && pin < PINS
    requires Routed(mem, o, |o|, irq, Route(irq, false, false), chip.routes[irq])
    ensures Enables(mem, o, irq, pin, Pin(chip.regs, pin), Pin(Enabled(chip.regs, chip.routes, irq), pin))
  {
    EnabledPin(chip.regs, chip.routes, irq, pin);
    IsaDelivered(irq, chip.routes[irq]);
    RouteEnables(mem, o, irq, pin, chip.routes[irq], Pin(chip.regs, pin), Pin(Enabled(chip.regs, chip.routes, irq), pin), IsaEntry(irq, chip.routes[irq]));
  }

  lemma RouteEnables(mem: seq<byte>, o: seq<nat>, irq: nat, pin: nat, route: Route, before: Word, after: Word, entry: Word)
    requires Inside(mem, o) && irq < 16 && pin < PINS && Routed(mem, o, |o|, irq, Route(irq, false, false), route)
    requires DeliversIsa(entry, 0x30 + irq, route.activeLow, route.levelTriggered)
    requires after == if route.destination % 128 == pin then entry else before
    ensures Enables(mem, o, irq, pin, before, after)
  {
    LowBits(irq, pin);
  }

  lemma IsaDelivered(irq: nat, route: Route)
    requires irq < 16
    ensures DeliversIsa(IsaEntry(irq, route), 0x30 + irq, route.activeLow, route.levelTriggered)
  {
    IsaEntryMeans(irq, route);
  }

  /** The pin reached is the interrupt number asked for if and only if the number is below 128: higher ones are truncated. */
  lemma PinOfOverride(mem: seq<byte>, a: nat, flags: nat)
    requires a + LONGEST <= |mem|
    ensures OverrideRoute(U32(mem, a + 4), flags).destination % 128 == mem[a + 4] % 128
    ensures mem[a + 4] % 128 == U32(mem, a + 4) <==> U32(mem, a + 4) < 128
  {
    LowBytes(mem, a);
  }

  // ----- The local interrupt lines

  /** NMI delivery, not masked; active low exactly for polarity 3, and bit 5 - not the trigger mode - for trigger 3. */
  predicate LocalNmi(e: Reg, flags: nat) {
    && e[10] && (e[13] <==> flags % 4 == 3) && (e[5] <==> flags / 4 % 4 == 3)
    && forall k :: 0 <= k < 32 && k != 5 && k != 10 && k != 13 ==> !e[k]
  }

  predicate LineHolds(mem: seq<byte>, o: seq<nat>, n: nat, reg: nat, before: Reg, after: Reg)
    requires Inside(mem, o) && n <= |o|
  {
    var k := LastWired(mem, o, n, reg);
    if k.None? then after == before else LocalNmi(after, mem[o[k.value] + 3])
  }

  /** After the walk a register of the local APIC has the entry of the last record that wires it, or its old value. */
  lemma LinesAfterWalk(mem: seq<byte>, length: nat, c: Pics, hhdm: nat, s: Space, o: seq<nat>, reg: nat)
    requires HEADER <= length && length + LONGEST <= |mem| && Tiled(mem, HEADER, length) && o == Offsets(mem, HEADER, length)
    requires Walk(mem, o, Records(mem, HEADER, length), c, s) && ApplyAll(c, Records(mem, HEADER, length), hhdm, s).Some?
    requires reg < LAPIC_REGISTERS
    ensures LineHolds(mem, o, |o|, reg, c.lapic[reg], ApplyAll(c, Records(mem, HEADER, length), hhdm, s).value.lapic[reg])
  {
    var rs := Records(mem, HEADER, length);
    assert rs[..|o|] == rs;
    LineAfter(mem, o, rs, c, hhdm, s, |o|, reg);
  }

  lemma {:induction false} LineAfter(mem: seq<byte>, o: seq<nat>, rs: seq<Record>, c: Pics, hhdm: nat, s: Space, n: nat, reg: nat)
    requires Walk(mem, o, rs, c, s) && n <= |o| && reg < LAPIC_REGISTERS
    ensures RecordsOk(rs[..n])
    ensures var after := ApplyAll(c, rs[..n], hhdm, s); after.Some? ==> LineHolds(mem, o, n, reg, c.lapic[reg], after.value.lapic[reg])
  {
    if n > 0 {
      LineAfter(mem, o, rs, c, hhdm, s, n - 1, reg);
      Step(mem, o, rs, c, hhdm, s, n - 1);
      var before, after := ApplyAll(c, rs[..n - 1], hhdm, s), ApplyAll(c, rs[..n], hhdm, s);
      if after.Some? { LineStep(mem, o, n - 1, reg, c.lapic[reg], before.value, after.value, hhdm, s); }
    }
  }

  lemma LineStep(mem: seq<byte>, o: seq<nat>, n: nat, reg: nat, start: Reg, c: Pics, c': Pics, hhdm: nat, s: Space)
    requires Inside(mem, o) && n < |o| && c.Valid() && c'.Valid() && s.Placed() && RecordOk(RecordAt(mem, o[n])) && reg < LAPIC_REGISTERS
    requires LineHolds(mem, o, n, reg, start, c.lapic[reg]) && Apply(c, RecordAt(mem, o[n]), hhdm, s) == Some(c')
    ensures LineHolds(mem, o, n + 1, reg, start, c'.lapic[reg])
  {
    if Wires(mem, o[n], reg) {
      LowFlags(mem, o[n] + 3);
      NmiLvtMeans(U16(mem, o[n] + 3));
    }
  }

  /** Before the walk: the six local lines are masked, the spurious vector is 0xFF with the APIC enabled, and nothing else changed. */
  lemma LinesBegun(regs: seq<Reg>, reg: nat)
    requires |regs| == LAPIC_REGISTERS && reg < LAPIC_REGISTERS
    ensures var after := Begun(regs)[reg];
      if 0x32 <= reg <= 0x37 then forall k :: 0 <= k < 32 ==> (after[k] <==> k == 16)
      else if reg == 0x0F then forall k :: 0 <= k < 32 ==> (after[k] <==> k <= 8)
      else after == regs[reg]
  {
  }

  // ----- The registers in memory

  lemma RegisterFlags()
    ensures 0x9 % 2 == 1 && 0x9 / 2 % 2 == 0 && 0x9 / 8 % 4 == 1
    ensures 0x1 % 2 == 1 && 0x1 / 2 % 2 == 0 && 0x1 / 8 % 4 == 0
  {
  }

  /** Registering the I/O APIC: each byte of its two registers is reached at its HHDM address, writable and uncached. */
  lemma ChipReached(s: Space, t: Space, hhdm: nat, address: nat, k: nat, v: nat)
    requires Sound(s) && IoApic.Mapped(s, t, RegisterRequest(hhdm, address)) && k < 0x20
    requires 0xFFFF_8000_0000_0000 <= hhdm && hhdm % 0x1000 == 0 && hhdm + address + 0x20 <= TWO64
    requires v == (hhdm + address + k) / 0x1000 % VPNS
    ensures t.Walk(v) == Translation.Mapped((address + k) / 0x1000, Rights(true, false, false), 2)
  {
    RegisterFlags();
    DeviceReached(s, t, hhdm, address, 0x20, 9, RegisterRequest(hhdm, address), k, v, Translation.Mapped((address + k) / 0x1000, Rights(true, false, false), 2));
  }

  /** Starting the local APIC without x2APIC: each byte of its registers is reached at its HHDM address, writable and cached. */
  lemma LinesReached(s: Space, t: Space, hhdm: nat, base: nat, k: nat, v: nat)
    requires Sound(s) && IoApic.Mapped(s, t, LapicRequest(hhdm, base)) && k < 0x400
    requires 0xFFFF_8000_0000_0000 <= hhdm && hhdm % 0x1000 == 0 && hhdm + base + 0x400 <= TWO64
    requires v == (hhdm + base + k) / 0x1000 % VPNS
    ensures t.Walk(v) == Translation.Mapped((base + k) / 0x1000, Rights(true, false, false), 0)
  {
    RegisterFlags();
    DeviceReached(s, t, hhdm, base, 0x400, 1, LapicRequest(hhdm, base), k, v, Translation.Mapped((base + k) / 0x1000, Rights(true, false, false), 0));
  }
}
