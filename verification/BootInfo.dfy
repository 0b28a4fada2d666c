/** What the boot loader hands over: the memory map, the kernel's placement and its program headers. */
module BootInfo {
  import opened Wrappers
  import opened Bits
  import opened Bitmap
  import opened Mapping
  import opened Paging

  datatype MemmapKind =
    | Usable | Reserved | AcpiReclaimable | AcpiNvs | BadMemory | BootloaderReclaimable
    | ExecutableAndModules | Framebuffer | ReservedMapped | OtherKind

  datatype MemmapEntry = MemmapEntry(base: nat, length: nat, kind: MemmapKind)
  {
    function End(): nat {
      base + length
    }

    /** Page frames of an aligned entry. */
    function Pages(): set<nat> {
      Range(base / PAGE_SIZE, End() / PAGE_SIZE)
    }

    predicate Aligned() {
      base % PAGE_SIZE == 0 && length % PAGE_SIZE == 0
    }
  }

  datatype SegmentKind = Load | GnuRelro | OtherSegment

  /** An ELF program header; PF_X is flag 1 and PF_W is flag 2. */
  datatype Phdr = Phdr(kind: SegmentKind, vaddr: nat, memsz: nat, flags: nat)

  /** The two times the bitmap takes in entries of the memory map. */
  datatype Phase = Init | Reclaim

  predicate Claims(phase: Phase, kind: MemmapKind) {
    match phase
    case Init => kind == Usable
    case Reclaim => kind == AcpiReclaimable || kind == BootloaderReclaimable
  }

  /** All pages of the first `k` entries that a phase takes in. */
  function Claimed(entries: seq<MemmapEntry>, phase: Phase, k: nat): set<nat>
    requires k <= |entries|
  {
    if k == 0 then {}
    else Claimed(entries, phase, k - 1) + (if Claims(phase, entries[k - 1].kind) then entries[k - 1].Pages() else {})
  }

  lemma {:induction false} ClaimedHas(entries: seq<MemmapEntry>, phase: Phase, k: nat, p: nat)
    requires k <= |entries|
    ensures p in Claimed(entries, phase, k) <==>
            exists i :: 0 <= i < k && Claims(phase, entries[i].kind) && p in entries[i].Pages()
  {
    if k > 0 { ClaimedHas(entries, phase, k - 1, p); }
  }

  function HighestEnd(entries: seq<MemmapEntry>, k: nat): nat
    requires k <= |entries|
  {
    if k == 0 then 0
    else if entries[k - 1].End() > HighestEnd(entries, k - 1) then entries[k - 1].End()
    else HighestEnd(entries, k - 1)
  }

  lemma {:induction false} HighestEndBounds(entries: seq<MemmapEntry>, k: nat, bound: nat)
    requires k <= |entries|
    ensures forall i :: 0 <= i < k ==> entries[i].End() <= HighestEnd(entries, k)
    ensures (forall i :: 0 <= i < k ==> entries[i].End() <= bound) ==> HighestEnd(entries, k) <= bound
  {
    if k > 0 { HighestEndBounds(entries, k - 1, bound); }
  }

  lemma {:induction false} HighestEndReached(entries: seq<MemmapEntry>, k: nat)
    requires k <= |entries| && HighestEnd(entries, k) > 0
    ensures exists i :: 0 <= i < k && entries[i].End() == HighestEnd(entries, k)
  {
    if entries[k - 1].End() <= HighestEnd(entries, k - 1) { HighestEndReached(entries, k - 1); }
  }

  /** Number of pages up to the highest end of any entry. */
  function TotalPages(entries: seq<MemmapEntry>): nat {
    (HighestEnd(entries, |entries|) + PAGE_SIZE - 1) / PAGE_SIZE
  }

  /** Entry `i` is the first usable one longer than `bytes`. */
  ghost predicate FirstFit(entries: seq<MemmapEntry>, bytes: nat, i: nat) {
    && i < |entries| && Fits(entries[i], bytes)
    && forall j :: 0 <= j < i ==> !Fits(entries[j], bytes)
  }

  predicate Fits(e: MemmapEntry, bytes: nat) {
    e.kind == Usable && e.length > bytes
  }

  /**
    What the boot protocol promises of the memory map: entries lie inside physical memory, which is at most
    2^52 bytes, and usable entries are page-aligned.
   */
  predicate WellFormed(entries: seq<MemmapEntry>, memory: nat) {
    && memory <= 0x10_0000_0000_0000 && memory % PAGE_SIZE == 0
    && (forall i :: 0 <= i < |entries| ==> entries[i].End() <= memory)
    && (forall i :: 0 <= i < |entries| && entries[i].kind == Usable ==> entries[i].Aligned())
  }

  /** No two entries overlap. */
  predicate Disjoint(entries: seq<MemmapEntry>) {
    forall i, j :: 0 <= i < j < |entries| ==> entries[i].End() <= entries[j].base || entries[j].End() <= entries[i].base
  }

  // ----- The mapping requests of vmm_init

  /** Flags with which an entry of the memory map is mapped into the HHDM; None leaves it out. */
  function HhdmFlags(kind: MemmapKind): Option<nat> {
    match kind
    case Usable => Some(M_W)
    case AcpiReclaimable => Some(M_W)
    case BootloaderReclaimable => Some(M_W)
    case Framebuffer => Some(M_CACHE_WC + M_W)
    case ReservedMapped => Some(M_NONE)
    case _ => None
  }

  /** The request for one entry, if it is mapped at all. */
  function HhdmPart(e: MemmapEntry, hhdm: nat): seq<Request> {
    match HhdmFlags(e.kind)
    case None => []
    case Some(flags) => [Request(e.base, PhyToVirt(hhdm, e.base), e.length, flags)]
  }

  function HhdmRequests(entries: seq<MemmapEntry>, hhdm: nat, k: nat): seq<Request>
    requires k <= |entries|
  {
    if k == 0 then [] else HhdmRequests(entries, hhdm, k - 1) + HhdmPart(entries[k - 1], hhdm)
  }

  function PhyToVirt(hhdm: nat, paddr: nat): nat {
    U64(hhdm + paddr)
  }

  /** How a driver asks for its device at an HHDM address. */
  function DeviceRequest(hhdm: nat, a: nat, size: nat, flags: nat): Request {
    AlignedRequest(a, PhyToVirt(hhdm, a), size, flags)
  }

  const PF_X: nat := 1
  const PF_W: nat := 2

  /** `elf_to_memory_flags`, as the code computes it. */
  function ElfFlags(flags: nat): nat {
    (if flags / PF_W % 2 == 1 then M_W else 0) + (if flags / PF_X % 2 == 1 then M_X else 0)
  }

  /** The memory flags of a segment: bit 0 (writable) is the header's bit 1, bit 1 (executable) is the header's bit 0. */
  function SegmentFlags(elf: nat): nat {
    elf / 2 % 2 + 2 * (elf % 2)
  }

  lemma ElfFlagsMean(elf: nat)
    ensures ElfFlags(elf) == SegmentFlags(elf)
  {
  }

  function SegmentRequest(p: Phdr, physBase: nat, virtBase: nat): Request {
    AlignedRequest(U64(physBase + p.vaddr), U64(virtBase + p.vaddr), p.memsz, SegmentFlags(p.flags))
  }

  function SegmentPart(p: Phdr, kind: SegmentKind, physBase: nat, virtBase: nat): seq<Request> {
    if p.kind == kind then [SegmentRequest(p, physBase, virtBase)] else []
  }

  /** Requests for the program headers of one kind among the first `k`. */
  function SegmentRequests(phdrs: seq<Phdr>, kind: SegmentKind, physBase: nat, virtBase: nat, k: nat): seq<Request>
    requires k <= |phdrs|
  {
    if k == 0 then []
    else SegmentRequests(phdrs, kind, physBase, virtBase, k - 1) + SegmentPart(phdrs[k - 1], kind, physBase, virtBase)
  }

  lemma {:induction false} HhdmPrefix(entries: seq<MemmapEntry>, hhdm: nat, j: nat, k: nat)
    requires j <= k <= |entries|
    ensures HhdmRequests(entries, hhdm, j) <= HhdmRequests(entries, hhdm, k)
  {
    if j < k { HhdmPrefix(entries, hhdm, j, k - 1); }
  }

  lemma {:induction false} SegmentPrefix(phdrs: seq<Phdr>, kind: SegmentKind, physBase: nat, virtBase: nat, j: nat, k: nat)
    requires j <= k <= |phdrs|
    ensures SegmentRequests(phdrs, kind, physBase, virtBase, j) <= SegmentRequests(phdrs, kind, physBase, virtBase, k)
  {
    if j < k {
      SegmentPrefix(phdrs, kind, physBase, virtBase, j, k - 1);
      LongerPrefix(SegmentRequests(phdrs, kind, physBase, virtBase, j), SegmentRequests(phdrs, kind, physBase, virtBase, k - 1),
                   SegmentPart(phdrs[k - 1], kind, physBase, virtBase));
    }
  }

  lemma LongerPrefix(a: seq<Request>, b: seq<Request>, c: seq<Request>)
    requires a <= b
    ensures a <= b + c
  {
  }

  lemma SegmentNext(done: seq<Request>, phdrs: seq<Phdr>, kind: SegmentKind, physBase: nat, virtBase: nat, i: nat, all: seq<Request>)
    requires i < |phdrs| && done + SegmentRequests(phdrs, kind, physBase, virtBase, |phdrs|) <= all
    ensures var served := done + SegmentRequests(phdrs, kind, physBase, virtBase, i);
      && done + SegmentRequests(phdrs, kind, physBase, virtBase, i + 1) == served + SegmentPart(phdrs[i], kind, physBase, virtBase)
      && served + SegmentPart(phdrs[i], kind, physBase, virtBase) <= all
  {
    SegmentPrefix(phdrs, kind, physBase, virtBase, i + 1, |phdrs|);
    Regroup(done, SegmentRequests(phdrs, kind, physBase, virtBase, i), SegmentPart(phdrs[i], kind, physBase, virtBase),
            SegmentRequests(phdrs, kind, physBase, virtBase, |phdrs|), all);
  }

  lemma Regroup(a: seq<Request>, b: seq<Request>, c: seq<Request>, whole: seq<Request>, all: seq<Request>)
    requires b + c <= whole && a + whole <= all
    ensures a + (b + c) == a + b + c && a + b + c <= all
  {
  }

  /** Everything vmm_init maps, in order. */
  function InitRequests(entries: seq<MemmapEntry>, hhdm: nat, phdrs: seq<Phdr>, physBase: nat, virtBase: nat): seq<Request> {
    HhdmRequests(entries, hhdm, |entries|)
    + SegmentRequests(phdrs, Load, physBase, virtBase, |phdrs|)
    + SegmentRequests(phdrs, GnuRelro, physBase, virtBase, |phdrs|)
  }
}
