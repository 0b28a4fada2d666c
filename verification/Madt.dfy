/**
  The walk over the multiple APIC description table (`src/drivers/acpi/madt.c`): records of a type byte, a length byte
  and a body follow a 44-byte header, and each is handed to its handler.
 */
module Madt {
  import opened Wrappers
  import opened Bits
  import opened KernelSpace
  import opened Mapping
  import opened MemoryManager
  import opened IoApic
  import opened Lapic

  type byte = b: nat | b < 0x100

  const HEADER: nat := 44 // offsetof(struct MADT, records)
  const LONGEST: nat := 12 // no handler reads further into its record

  datatype Record =
    | ProcessorLocalApic(processor: byte, apic: byte, lapicFlags: nat)
    | IoApicRecord(id: byte, reserved: byte, address: nat, gsiBase: nat)
    | SourceOverride(bus: byte, source: byte, gsi: nat, flags: nat)
    | NmiSource(flags: nat, gsi: nat)
    | LocalApicNmi(processor: byte, flags: nat, lint: byte)
    | OtherRecord(kind: byte)

  // ----- Fields

  function Bytes2(n: nat): seq<byte> {
    [n % 0x100, n / 0x100 % 0x100]
  }

  function Bytes4(n: nat): seq<byte> {
    [n % 0x100, n / 0x100 % 0x100, n / 0x1_0000 % 0x100, n / 0x100_0000 % 0x100]
  }

  function U16(mem: seq<byte>, a: nat): (n: nat)
    requires a + 2 <= |mem|
    ensures n < 0x1_0000
  {
    (mem[a] as nat) + 0x100 * (mem[a + 1] as nat)
  }

  function U32(mem: seq<byte>, a: nat): (n: nat)
    requires a + 4 <= |mem|
    ensures n < 0x1_0000_0000
  {
    U16(mem, a) + 0x1_0000 * U16(mem, a + 2)
  }

  /** The record at address `a`, as the handlers' structures overlay it. */
  function RecordAt(mem: seq<byte>, a: nat): Record
    requires a + LONGEST <= |mem|
  {
    match mem[a]
    case 0 => ProcessorLocalApic(mem[a + 2], mem[a + 3], U32(mem, a + 4))
    case 1 => IoApicRecord(mem[a + 2], mem[a + 3], U32(mem, a + 4), U32(mem, a + 8))
    case 2 => SourceOverride(mem[a + 2], mem[a + 3], U32(mem, a + 4), U16(mem, a + 8))
    case 3 => NmiSource(U16(mem, a + 2), U32(mem, a + 4))
    case 4 => LocalApicNmi(mem[a + 2], U16(mem, a + 3), mem[a + 5])
    case kind => OtherRecord(kind)
  }

  // ----- The records of a table

  /** The bytes from `a` to `end` are records of at least two bytes, end to end. */
  predicate Tiled(mem: seq<byte>, a: nat, end: nat)
    requires end + LONGEST <= |mem|
    decreases end - a
  {
    a == end || (a < end && mem[a + 1] >= 2 && Tiled(mem, a + mem[a + 1], end))
  }

  function Records(mem: seq<byte>, a: nat, end: nat): seq<Record>
    requires end + LONGEST <= |mem| && Tiled(mem, a, end)
    decreases end - a
  {
    if a == end then [] else [RecordAt(mem, a)] + Records(mem, a + mem[a + 1], end)
  }

  // ----- What the handlers do

  /** The interrupt controllers. */
  datatype Pics = Pics(chip: Chip, lapic: seq<Reg>)
  {
    predicate Valid() {
      chip.Valid() && |lapic| == LAPIC_REGISTERS
    }
  }

  /** An override of the ISA bus names an ISA interrupt, and addresses have 32 bits. */
  predicate RecordOk(r: Record) {
    && (r.SourceOverride? && r.bus == 0 ==> r.source < 16)
    && (r.IoApicRecord? ==> r.address < 0x1_0000_0000)
  }

  /** The effect of one record while no I/O APIC is mapped and memory is in state `s`; None is a panic or a fault. */
  ghost function Apply(c: Pics, r: Record, hhdm: nat, s: Space): (c': Option<Pics>)
    requires c.Valid() && RecordOk(r) && s.Placed()
    ensures c'.Some? ==> c'.value.Valid()
  {
    match r
    case ProcessorLocalApic(_, _, _) => Some(c)
    case IoApicRecord(_, _, address, gsiBase) =>
      if Registered(c.chip, address, gsiBase, hhdm, s).None? then None
      else Some(Pics(Registered(c.chip, address, gsiBase, hhdm, s).value, c.lapic))
    case SourceOverride(bus, source, gsi, flags) =>
      if bus != 0 then None
      else Some(Pics(Chip(c.chip.base, c.chip.routes[source := OverrideRoute(gsi, flags)], c.chip.regs), c.lapic))
    case NmiSource(flags, gsi) =>
      if c.chip.base == 0 then None
      else Some(Pics(Chip(c.chip.base, c.chip.routes, Put64(c.chip.regs, TableReg(gsi), NmiEntry(flags))), c.lapic))
    case LocalApicNmi(processor, flags, lint) => Some(Pics(c.chip, NmiTaken(c.lapic, processor, flags, lint)))
    case OtherRecord(_) => None
  }

  predicate RecordsOk(rs: seq<Record>) {
    forall k :: 0 <= k < |rs| ==> RecordOk(rs[k])
  }

  ghost function ApplyAll(c: Pics, rs: seq<Record>, hhdm: nat, s: Space): (c': Option<Pics>)
    requires c.Valid() && RecordsOk(rs) && s.Placed()
    ensures c'.Some? ==> c'.value.Valid()
  {
    if rs == [] then Some(c)
    else
      var before := ApplyAll(c, rs[..|rs| - 1], hhdm, s);
      if before.None? then None else Apply(before.value, rs[|rs| - 1], hhdm, s)
  }

  lemma ApplyAllThen(c: Pics, rs: seq<Record>, r: Record, hhdm: nat, s: Space)
    requires c.Valid() && RecordsOk(rs + [r]) && s.Placed()
    ensures RecordsOk(rs) && RecordOk(r)
    ensures var before := ApplyAll(c, rs, hhdm, s);
      ApplyAll(c, rs + [r], hhdm, s) == if before.None? then None else Apply(before.value, r, hhdm, s)
  {
    assert (rs + [r])[|rs|] == r;
    assert (rs + [r])[..|rs|] == rs;
    forall k | 0 <= k < |rs|
      ensures RecordOk(rs[k])
    {
      assert (rs + [r])[k] == rs[k];
    }
  }

  /** A panic ends the walk: what follows does not matter. */
  lemma {:induction false} PanicStays(c: Pics, rs: seq<Record>, more: seq<Record>, hhdm: nat, s: Space)
    requires c.Valid() && s.Placed() && RecordsOk(rs + more) && RecordsOk(rs) && ApplyAll(c, rs, hhdm, s).None?
    ensures ApplyAll(c, rs + more, hhdm, s).None?
  {
    if more == [] {
      assert rs + more == rs;
    } else {
      var front := rs + more[..|more| - 1];
      assert rs + more == front + [more[|more| - 1]];
      ApplyAllThen(c, front, more[|more| - 1], hhdm, s);
      PanicStays(c, rs, more[..|more| - 1], hhdm, s);
    }
  }

  /** The handler of the record at `a`; false is a panic or a fault. Memory leaves state `s` when the I/O APIC is registered. */
  method Dispatch(apic: Controller, lapic: LocalApic, mm: MemoryManager, mem: seq<byte>, a: nat, ghost s: Space) returns (ok: bool)
    requires apic.Valid() && lapic.Valid() && mm.Running() && s.Placed()
    requires apic.base == 0 ==> mm.Now() == s
    requires a + LONGEST <= |mem| && RecordOk(RecordAt(mem, a))
    modifies apic, apic.device, apic.redirection, lapic, mm.ram, mm.ram.bytes, mm`tables
    ensures apic.Valid() && lapic.Valid() && mm.ram.Valid()
    ensures ok <==> Apply(old(Pics(apic.Now(), lapic.regs)), RecordAt(mem, a), mm.hhdm, s).Some?
    ensures ok ==> Pics(apic.Now(), lapic.regs) == Apply(old(Pics(apic.Now(), lapic.regs)), RecordAt(mem, a), mm.hhdm, s).value
    ensures ok ==> mm.Running() && (apic.base == 0 ==> mm.Now() == s)
  {
    match mem[a] {
      case 0 => ok := true;
      case 1 => ok := Register(apic, mm, U32(mem, a + 4), U32(mem, a + 8), s);
      case 2 => ok := apic.InitSourceOverride(mem[a + 2], mem[a + 3], U32(mem, a + 4), U16(mem, a + 8));
      case 3 => ok := apic.InitNmiSource(U16(mem, a + 2), U32(mem, a + 4));
      case 4 =>
        lapic.InitNmi(mem[a + 2], U16(mem, a + 3), mem[a + 5]);
        ok := true;
      case _ => ok := false;
    }
  }

  /** The handler of an I/O APIC record. */
  method Register(apic: Controller, mm: MemoryManager, address: nat, gsiBase: nat, ghost s: Space) returns (ok: bool)
    requires apic.Valid() && mm.Running() && s.Placed() && address < 0x1_0000_0000
    requires apic.base == 0 ==> mm.Now() == s
    modifies apic, apic.device, mm.ram, mm.ram.bytes, mm`tables
    ensures apic.Valid() && mm.ram.Valid()
    ensures ok <==> Registered(old(apic.Now()), address, gsiBase, mm.hhdm, s).Some?
    ensures ok ==> apic.Now() == Registered(old(apic.Now()), address, gsiBase, mm.hhdm, s).value
    ensures ok ==> mm.Running() && apic.base != 0
  {
    ok := apic.InitRegister(mm, address, gsiBase);
    if ok { RegisteredOnce(old(apic.Now()), address, gsiBase, mm.hhdm, s); }
  }

  /** The walk: it dispatches the records of the table, each once and in order, until one of them panics. */
  method WalkRecords(apic: Controller, lapic: LocalApic, mm: MemoryManager, mem: seq<byte>, length: nat, ghost s: Space) returns (ok: bool)
    requires apic.Valid() && lapic.Valid() && mm.Running() && mm.Now() == s
    requires HEADER <= length && length + LONGEST <= |mem|
    requires Tiled(mem, HEADER, length) && RecordsOk(Records(mem, HEADER, length))
    modifies apic, apic.device, apic.redirection, lapic, mm.ram, mm.ram.bytes, mm`tables
    ensures apic.Valid() && lapic.Valid() && mm.ram.Valid()
    ensures var after := ApplyAll(old(Pics(apic.Now(), lapic.regs)), Records(mem, HEADER, length), mm.hhdm, s);
      (ok <==> after.Some?) && (ok ==> Pics(apic.Now(), lapic.regs) == after.value)
    ensures ok ==> mm.Running()
  {
    ghost var c, all := Pics(apic.Now(), lapic.regs), Records(mem, HEADER, length);
    ghost var done: seq<Record> := [];
    ghost var a := HEADER;
    var i := 0;
    while i + HEADER < length
      invariant a == HEADER + i <= length && Tiled(mem, a, length)
      invariant apic.Valid() && lapic.Valid() && mm.Running() && (apic.base == 0 ==> mm.Now() == s)
      invariant done + Records(mem, a, length) == all
      invariant RecordsOk(done) && ApplyAll(c, done, mm.hhdm, s) == Some(Pics(apic.Now(), lapic.regs))
      decreases length - a
    {
      ghost var next := TiledStep(mem, a, length);
      ghost var r, rest := RecordAt(mem, a), Records(mem, next, length);
      NextRecord(done, r, rest, all);
      ApplyAllThen(c, done, r, mm.hhdm, s);
      var handled := Dispatch(apic, lapic, mm, mem, HEADER + i, s);
      if !handled {
        PanicStays(c, done + [r], rest, mm.hhdm, s);
        return false;
      }
      done, a := done + [r], next;
      i := i + mem[HEADER + i + 1];
    }
    assert done == all;
    return true;
  }

  /**
    `acpi_parse_madt`: starts the local APIC, which may have to map it, and walks the table from the state `s` that
    this leaves. Returns if and only if neither panics.
   */
  method AcpiParseMadt(apic: Controller, lapic: LocalApic, mm: MemoryManager, mem: seq<byte>, length: nat, x2apic: bool, base: nat)
    returns (ok: bool, ghost s: Space)
    requires apic.Valid() && lapic.Valid() && mm.Running() && base < TWO64
    requires HEADER <= length && length + LONGEST <= |mem|
    requires Tiled(mem, HEADER, length) && RecordsOk(Records(mem, HEADER, length))
    modifies apic, apic.device, apic.redirection, lapic, mm.ram, mm.ram.bytes, mm`tables
    ensures apic.Valid() && lapic.Valid() && mm.ram.Valid()
    ensures ok ==> mm.Running()
    ensures ok ==> x2apic || CanMap(old(mm.Now()), LapicRequest(mm.hhdm, base))
    ensures x2apic || CanMap(old(mm.Now()), LapicRequest(mm.hhdm, base)) ==>
      && Sound(s) && (if x2apic then s == old(mm.Now()) else Mapped(old(mm.Now()), s, LapicRequest(mm.hhdm, base)))
      && var after := ApplyAll(Pics(old(apic.Now()), Begun(old(lapic.regs))), Records(mem, HEADER, length), mm.hhdm, s);
        (ok <==> after.Some?) && (ok ==> Pics(apic.Now(), lapic.regs) == after.value)
  {
    ok := lapic.InitBegin(mm, x2apic, base);
    s := mm.Now();
    if ok { ok := WalkRecords(apic, lapic, mm, mem, length, s); }
  }

  lemma NextRecord(done: seq<Record>, r: Record, rest: seq<Record>, all: seq<Record>)
    requires done + ([r] + rest) == all && RecordsOk(all)
    ensures done + [r] + rest == all && RecordsOk(done + [r])
  {
    forall k | 0 <= k < |done + [r]|
      ensures (done + [r])[k] == all[k]
    {
    }
  }

  /** The record at `a` is followed by the next one. */
  lemma TiledStep(mem: seq<byte>, a: nat, end: nat) returns (next: nat)
    requires end + LONGEST <= |mem| && a < end && Tiled(mem, a, end)
    ensures a < next <= end && next == a + mem[a + 1] && Tiled(mem, next, end)
    ensures Records(mem, a, end) == [RecordAt(mem, a)] + Records(mem, next, end)
  {
    next := a + mem[a + 1];
  }

  // ----- The serializer that the walk inverts

  /** A record as firmware may lay it out: bytes may follow the fields that the kernel knows. */
  datatype Item = Item(record: Record, padding: seq<byte>)

  function Fields(r: Record): seq<byte> {
    match r
    case ProcessorLocalApic(processor, apic, flags) => [processor, apic] + Bytes4(flags)
    case IoApicRecord(id, reserved, address, gsiBase) => [id, reserved] + Bytes4(address) + Bytes4(gsiBase)
    case SourceOverride(bus, source, gsi, flags) => [bus, source] + Bytes4(gsi) + Bytes2(flags)
    case NmiSource(flags, gsi) => Bytes2(flags) + Bytes4(gsi)
    case LocalApicNmi(processor, flags, lint) => [processor] + Bytes2(flags) + [lint]
    case OtherRecord(_) => []
  }

  function KindOf(r: Record): byte {
    match r
    case ProcessorLocalApic(_, _, _) => 0
    case IoApicRecord(_, _, _, _) => 1
    case SourceOverride(_, _, _, _) => 2
    case NmiSource(_, _) => 3
    case LocalApicNmi(_, _, _) => 4
    case OtherRecord(kind) => kind
  }

  /** The fields have the widths that the table format gives them. */
  predicate FieldsFit(r: Record) {
    match r
    case ProcessorLocalApic(_, _, flags) => flags < 0x1_0000_0000
    case IoApicRecord(_, _, address, gsiBase) => address < 0x1_0000_0000 && gsiBase < 0x1_0000_0000
    case SourceOverride(_, _, gsi, flags) => gsi < 0x1_0000_0000 && flags < 0x1_0000
    case NmiSource(flags, gsi) => gsi < 0x1_0000_0000 && flags < 0x1_0000
    case LocalApicNmi(_, flags, _) => flags < 0x1_0000
    case OtherRecord(kind) => kind >= 5
  }

  predicate ItemOk(x: Item) {
    FieldsFit(x.record) && 2 + |Fields(x.record)| + |x.padding| < 0x100
  }

  function Encode(x: Item): seq<byte>
    requires ItemOk(x)
  {
    [KindOf(x.record), 2 + |Fields(x.record)| + |x.padding|] + Fields(x.record) + x.padding
  }

  function Serialize(items: seq<Item>): seq<byte>
    requires forall k :: 0 <= k < |items| ==> ItemOk(items[k])
  {
    if items == [] then [] else Encode(items[0]) + Serialize(items[1..])
  }

  function RecordsOf(items: seq<Item>): seq<Record> {
    if items == [] then [] else [items[0].record] + RecordsOf(items[1..])
  }

  /** Memory at `a` holds the bytes `f`. */
  predicate Holds(mem: seq<byte>, a: nat, f: seq<byte>) {
    a + |f| <= |mem| && forall k :: 0 <= k < |f| ==> mem[a + k] == f[k]
  }

  lemma Bytes4Sum(n: nat)
    requires n < 0x1_0000_0000
    ensures n == n % 0x100 + 0x100 * (n / 0x100 % 0x100) + 0x1_0000 * (n / 0x1_0000 % 0x100 + 0x100 * (n / 0x100_0000 % 0x100))
  {
    var high := n / 0x1_0000;
    assert n / 0x100_0000 == high / 0x100;
    assert n % 0x1_0000 == n % 0x100 + 0x100 * (n / 0x100 % 0x100);
  }

  lemma Bytes4Read(mem: seq<byte>, a: nat, f: seq<byte>, o: nat, n: nat)
    requires Holds(mem, a, f) && o + 4 <= |f| && n < 0x1_0000_0000 && f[o .. o + 4] == Bytes4(n)
    ensures U32(mem, a + o) == n
  {
    var b := f[o .. o + 4];
    assert b[0] == f[o] == mem[a + o] && b[1] == f[o + 1] == mem[a + (o + 1)];
    assert b[2] == f[o + 2] == mem[a + (o + 2)] && b[3] == f[o + 3] == mem[a + (o + 3)];
    Bytes4Sum(n);
  }

  lemma Bytes2Read(mem: seq<byte>, a: nat, f: seq<byte>, o: nat, n: nat)
    requires Holds(mem, a, f) && o + 2 <= |f| && n < 0x1_0000 && f[o .. o + 2] == Bytes2(n)
    ensures U16(mem, a + o) == n
  {
    var b := f[o .. o + 2];
    assert b[0] == f[o] == mem[a + o] && b[1] == f[o + 1] == mem[a + (o + 1)];
  }

  /** The fields of a record are read back. */
  lemma DecodeFields(mem: seq<byte>, a: nat, r: Record)
    requires FieldsFit(r) && a + LONGEST <= |mem| && mem[a] == KindOf(r) && Holds(mem, a + 2, Fields(r))
    ensures RecordAt(mem, a) == r
  {
    match r
    case ProcessorLocalApic(_, _, _) => DecodeLocalApic(mem, a, r);
    case IoApicRecord(_, _, _, _) => DecodeIoApic(mem, a, r);
    case SourceOverride(_, _, _, _) => DecodeOverride(mem, a, r);
    case NmiSource(_, _) => DecodeNmiSource(mem, a, r);
    case LocalApicNmi(_, _, _) => DecodeLocalNmi(mem, a, r);
    case OtherRecord(_) =>
  }

  lemma DecodeLocalApic(mem: seq<byte>, a: nat, r: Record)
    requires r.ProcessorLocalApic? && FieldsFit(r) && a + LONGEST <= |mem| && mem[a] == 0 && Holds(mem, a + 2, Fields(r))
    ensures RecordAt(mem, a) == r
  {
    var f := Fields(r);
    assert f[0] == mem[a + 2] && f[1] == mem[a + 2 + 1];
    assert f[2..6] == Bytes4(r.lapicFlags);
    Bytes4Read(mem, a + 2, f, 2, r.lapicFlags);
  }

  lemma DecodeIoApic(mem: seq<byte>, a: nat, r: Record)
    requires r.IoApicRecord? && FieldsFit(r) && a + LONGEST <= |mem| && mem[a] == 1 && Holds(mem, a + 2, Fields(r))
    ensures RecordAt(mem, a) == r
  {
    var f := Fields(r);
    assert f[0] == mem[a + 2] && f[1] == mem[a + 2 + 1];
    assert f[2..6] == Bytes4(r.address) && f[6..10] == Bytes4(r.gsiBase);
    Bytes4Read(mem, a + 2, f, 2, r.address);
    Bytes4Read(mem, a + 2, f, 6, r.gsiBase);
  }

  lemma DecodeOverride(mem: seq<byte>, a: nat, r: Record)
    requires r.SourceOverride? && FieldsFit(r) && a + LONGEST <= |mem| && mem[a] == 2 && Holds(mem, a + 2, Fields(r))
    ensures RecordAt(mem, a) == r
  {
    var f := Fields(r);
    assert f[0] == mem[a + 2] && f[1] == mem[a + 2 + 1];
    assert f[2..6] == Bytes4(r.gsi) && f[6..8] == Bytes2(r.flags);
    Bytes4Read(mem, a + 2, f, 2, r.gsi);
    Bytes2Read(mem, a + 2, f, 6, r.flags);
  }

  lemma DecodeNmiSource(mem: seq<byte>, a: nat, r: Record)
    requires r.NmiSource? && FieldsFit(r) && a + LONGEST <= |mem| && mem[a] == 3 && Holds(mem, a + 2, Fields(r))
    ensures RecordAt(mem, a) == r
  {
    var f := Fields(r);
    assert f[0..2] == Bytes2(r.flags) && f[2..6] == Bytes4(r.gsi);
    Bytes2Read(mem, a + 2, f, 0, r.flags);
    Bytes4Read(mem, a + 2, f, 2, r.gsi);
  }

  lemma DecodeLocalNmi(mem: seq<byte>, a: nat, r: Record)
    requires r.LocalApicNmi? && FieldsFit(r) && a + LONGEST <= |mem| && mem[a] == 4 && Holds(mem, a + 2, Fields(r))
    ensures RecordAt(mem, a) == r
  {
    var f := Fields(r);
    assert f[0] == mem[a + 2] && f[3] == mem[a + 2 + 3];
    assert f[1..3] == Bytes2(r.flags);
    Bytes2Read(mem, a + 2, f, 1, r.flags);
  }

  /** An encoded record is decoded to itself. */
  lemma DecodeEncode(mem: seq<byte>, a: nat, x: Item)
    requires ItemOk(x) && a + LONGEST <= |mem| && Holds(mem, a, Encode(x))
    ensures RecordAt(mem, a) == x.record && mem[a + 1] == |Encode(x)|
  {
    var e, f := Encode(x), Fields(x.record);
    assert mem[a + 0] == e[0] && mem[a + 1] == e[1];
    forall k | 0 <= k < |f|
      ensures mem[a + 2 + k] == f[k]
    {
      assert mem[a + (2 + k)] == e[2 + k];
    }
    DecodeFields(mem, a, x.record);
  }

  /** The walk sees exactly the records that were serialized, in order, whatever follows the table in memory. */
  lemma {:induction false} WalkInvertsSerialize(mem: seq<byte>, a: nat, end: nat, items: seq<Item>)
    requires a <= end && end + LONGEST <= |mem| && forall k :: 0 <= k < |items| ==> ItemOk(items[k])
    requires mem[a..end] == Serialize(items)
    ensures Tiled(mem, a, end) && Records(mem, a, end) == RecordsOf(items)
    decreases |items|
  {
    if items != [] {
      var next := a + |Encode(items[0])|;
      FirstItem(mem, a, end, items);
      DecodeEncode(mem, a, items[0]);
      WalkInvertsSerialize(mem, next, end, items[1..]);
      TiledNext(mem, a, next, end);
    }
  }

  lemma TiledNext(mem: seq<byte>, a: nat, next: nat, end: nat)
    requires a < end && end + LONGEST <= |mem| && mem[a + 1] >= 2 && next == a + mem[a + 1] && Tiled(mem, next, end)
    ensures Tiled(mem, a, end) && Records(mem, a, end) == [RecordAt(mem, a)] + Records(mem, next, end)
  {
  }

  lemma FirstItem(mem: seq<byte>, a: nat, end: nat, items: seq<Item>)
    requires a <= end <= |mem| && items != [] && forall k :: 0 <= k < |items| ==> ItemOk(items[k])
    requires mem[a..end] == Serialize(items)
    ensures var e := Encode(items[0]);
      Holds(mem, a, e) && a + |e| <= end && mem[a + |e| .. end] == Serialize(items[1..])
  {
    var e := Encode(items[0]);
    forall k | 0 <= k < |e|
      ensures mem[a + k] == e[k]
    {
      assert mem[a..end][k] == mem[a + k];
    }
    assert mem[a + |e|..end] == mem[a..end][|e|..] == Serialize(items[1..]);
  }
}
