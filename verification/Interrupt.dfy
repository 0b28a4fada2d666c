/**
  Interrupt entry and exit (`src/interrupt.s`): the processor's delivery, the stubs, and `iretq`, as a machine
  with registers and byte memory.
 */
module Interrupt {
  import opened Bits
  import opened PhysicalMemory

  type Bytes = map<nat, Byte>

  /** The general registers, and what delivery saves. The stack pointer is kept as a number. */
  datatype Regs = Regs(
    rax: Word, rcx: Word, rdx: Word, rbx: Word, rsp: nat, rbp: Word, rsi: Word, rdi: Word,
    r8: Word, r9: Word, r10: Word, r11: Word, r12: Word, r13: Word, r14: Word, r15: Word,
    rip: Word, cs: Word, rflags: Word, ss: Word)

  datatype State = State(r: Regs, mem: Bytes)

  const FRAME: nat := 128 // sizeof(struct stack_frame)
  const ROOM: nat := 0x98 // stack that entry may use: alignment, the frame and a return address
  const CODE64: nat := 8
  const DIRECTION: nat := 10

  /** Vectors for which the processor pushes an error code: #DF, #TS, #NP, #SS, #GP, #PF, #AC, #CP, #VC, #SX. */
  predicate PushesErrorCode(vector: nat) {
    vector == 8 || 10 <= vector <= 14 || vector == 17 || vector == 21 || vector == 29 || vector == 30
  }

  /** Vectors whose stub is made by `interrupt_stub_ec`. */
  predicate HasErrorStub(vector: nat) {
    vector in {8, 10, 11, 12, 13, 14, 17, 21, 29, 30}
  }

  /** Every vector has the stub that fits what the processor pushes. */
  lemma StubsMatch(vector: nat)
    ensures HasErrorStub(vector) <==> PushesErrorCode(vector)
  {
  }

  // ----- Words in byte memory

  /** Byte `b` is the one that a word `w` at `a` puts there. */
  predicate ByteAt(mem: Bytes, a: nat, w: Word, b: nat)
    requires a <= b < a + 8
  {
    b in mem && mem[b] == ByteOf(w, b - a)
  }

  /** The eight bytes at `a` are those of `w`, lowest first. */
  predicate Holds(mem: Bytes, a: nat, w: Word) {
    forall b: nat {:trigger ByteAt(mem, a, w, b)} :: a <= b < a + 8 ==> ByteAt(mem, a, w, b)
  }

  predicate Stored(mem: Bytes, a: nat) {
    forall b: nat :: a <= b < a + 8 ==> b in mem
  }

  function Store(mem: Bytes, a: nat, w: Word): Bytes {
    mem[a := ByteOf(w, 0)][a + 1 := ByteOf(w, 1)][a + 2 := ByteOf(w, 2)][a + 3 := ByteOf(w, 3)]
       [a + 4 := ByteOf(w, 4)][a + 5 := ByteOf(w, 5)][a + 6 := ByteOf(w, 6)][a + 7 := ByteOf(w, 7)]
  }

  function Load(mem: Bytes, a: nat): Word
    requires Stored(mem, a)
  {
    seq(64, k requires 0 <= k < 64 => mem[a + k / 8][k % 8])
  }

  /** Eight bytes are the bytes of one word only. */
  lemma HoldsOnce(mem: Bytes, a: nat, w: Word, w': Word)
    requires Holds(mem, a, w) && Holds(mem, a, w')
    ensures w == w'
  {
    forall k | 0 <= k < 64
      ensures w[k] == w'[k]
    {
      assert ByteAt(mem, a, w, a + k / 8) && ByteAt(mem, a, w', a + k / 8);
      assert w[k] == ByteOf(w, k / 8)[k % 8] && w'[k] == ByteOf(w', k / 8)[k % 8];
    }
  }

  lemma LoadStored(mem: Bytes, a: nat, w: Word)
    requires Holds(mem, a, w)
    ensures Stored(mem, a) && Load(mem, a) == w
  {
    forall b: nat | a <= b < a + 8
      ensures b in mem && mem[b] == ByteOf(w, b - a)
    {
      assert ByteAt(mem, a, w, b);
    }
    forall k | 0 <= k < 64
      ensures Load(mem, a)[k] == w[k]
    {
      assert mem[a + k / 8] == ByteOf(w, k / 8);
    }
  }

  predicate SameAt(mem: Bytes, mem': Bytes, a: nat) {
    (a in mem' <==> a in mem) && (a in mem ==> mem'[a] == mem[a])
  }

  /** No byte outside lo..hi-1 changed. */
  ghost predicate OnlyBetween(mem: Bytes, mem': Bytes, lo: nat, hi: nat) {
    forall a: nat {:trigger SameAt(mem, mem', a)} :: a < lo || hi <= a ==> SameAt(mem, mem', a)
  }

  lemma StoreHolds(mem: Bytes, a: nat, w: Word)
    ensures Holds(Store(mem, a, w), a, w) && OnlyBetween(mem, Store(mem, a, w), a, a + 8)
  {
  }

  lemma OnlyThen(m0: Bytes, m1: Bytes, m2: Bytes, lo: nat, hi: nat, lo': nat, hi': nat, bottom: nat, top: nat)
    requires OnlyBetween(m0, m1, lo, hi) && OnlyBetween(m1, m2, lo', hi')
    requires bottom <= lo && bottom <= lo' && hi <= top && hi' <= top
    ensures OnlyBetween(m0, m2, bottom, top)
  {
    forall a: nat | a < bottom || top <= a
      ensures SameAt(m0, m2, a)
    {
      assert SameAt(m0, m1, a) && SameAt(m1, m2, a);
    }
  }

  lemma StillHolds(mem: Bytes, mem': Bytes, lo: nat, hi: nat, a: nat, w: Word)
    requires OnlyBetween(mem, mem', lo, hi) && Holds(mem, a, w) && (a + 8 <= lo || hi <= a)
    ensures Holds(mem', a, w)
  {
    forall b: nat | a <= b < a + 8
      ensures ByteAt(mem', a, w, b)
    {
      assert ByteAt(mem, a, w, b) && SameAt(mem, mem', b);
    }
  }

  // ----- What entry and exit achieve

  /** Arithmetic touches the status flags only: bits 0 to 7 and 11. */
  predicate SameControl(rflags: Word, rflags': Word) {
    forall k :: 8 <= k < 64 && k != 11 ==> rflags'[k] == rflags[k]
  }

  /** Interrupt gates clear TF, IF, NT and RF. */
  function GateFlags(rflags: Word): Word {
    rflags[8 := false][9 := false][14 := false][16 := false]
  }

  /** Where the frame of an interrupt taken at stack pointer `rsp` starts: below the aligned stack pointer. */
  function FrameAt(rsp: nat): nat
    requires rsp >= ROOM
  {
    TopAt(rsp) - FRAME
  }

  /** The aligned stack pointer. */
  function TopAt(rsp: nat): (top: nat)
    ensures top <= rsp < top + 16
  {
    rsp - rsp % 16
  }

  /** Memory holds, at the offsets of `struct stack_frame`, the registers of the interrupted code. */
  ghost predicate Saved(mem: Bytes, frame: nat, r: Regs) {
    && Holds(mem, frame, r.r11) && Holds(mem, frame + 8, r.r10)
    && Holds(mem, frame + 16, r.r9) && Holds(mem, frame + 24, r.r8)
    && Holds(mem, frame + 32, r.rsi) && Holds(mem, frame + 40, r.rdx)
    && Holds(mem, frame + 48, r.rcx) && Holds(mem, frame + 56, r.rax)
    && Holds(mem, frame + 64, r.rdi)
    && Holds(mem, frame + 88, r.rip) && Holds(mem, frame + 96, r.cs)
    && Holds(mem, frame + 104, r.rflags) && Holds(mem, frame + 112, WordOf(r.rsp))
    && Holds(mem, frame + 120, r.ss)
  }

  /** Callee-saved registers. */
  predicate CalleeSaved(r: Regs, r': Regs) {
    r'.rbx == r.rbx && r'.rbp == r.rbp && r'.r12 == r.r12 && r'.r13 == r.r13 && r'.r14 == r.r14 && r'.r15 == r.r15
  }

  predicate CanEnter(rsp: nat) {
    ROOM <= rsp < TWO64
  }

  /** Entry from state `s` has reached the first instruction of `interrupt_handler` in state `t`. */
  ghost predicate Entered(s: State, vector: nat, error: Word, t: State) {
    CanEnter(s.r.rsp) && EnteredWith(s, FrameAt(s.r.rsp), vector, error, t) && (t.r.rsp + 8) % 16 == 0
  }

  /** The frame is at `frame`, its address and the vector are the handler's arguments, and nothing above it was written. */
  ghost predicate EnteredWith(s: State, frame: nat, vector: nat, error: Word, t: State) {
    && frame >= 8
    && Saved(t.mem, frame, s.r)
    && (PushesErrorCode(vector) ==> Holds(t.mem, frame + 80, error))
    && OnlyBetween(s.mem, t.mem, frame - 8, frame + FRAME)
    && t.r.rdi == WordOf(vector) && t.r.rsi == WordOf(frame)
    && t.r.rsp == frame - 8
    && CalleeSaved(s.r, t.r)
    && HandlerControl(s.r, t.r)
  }

  /**
    The handler runs in the kernel's code segment with tracing, interrupts and string direction switched off (bits 8, 9 and 10)
    and NT and RF clear (bits 14 and 16); every other control flag and the stack segment are the interrupted code's.
   */
  predicate HandlerControl(r: Regs, r': Regs) {
    && r'.cs == WordOf(0x8) && r'.ss == r.ss
    && !r'.rflags[8] && !r'.rflags[9] && !r'.rflags[10] && !r'.rflags[14] && !r'.rflags[16]
    && forall k :: 12 <= k < 64 && k != 14 && k != 16 ==> r'.rflags[k] == r.rflags[k]
  }

  /** The exit path has taken the machine from `s`, back from the handler, to `t`. */
  ghost predicate Left(s: State, t: State) {
    t.mem == s.mem && t.r.rsp < TWO64 && Saved(s.mem, s.r.rsp, t.r) && CalleeSaved(s.r, t.r)
  }

  /** A processor, seen by the code that runs on it. */
  class Machine {
    var r: Regs
    var mem: Bytes
    const idt: seq<Word> // entry points of the stubs
    const afterCall: Word // return address of the call in generic_interrupt_stub

    constructor (r: Regs, mem: Bytes, idt: seq<Word>, afterCall: Word)
      ensures Now() == State(r, mem) && this.idt == idt && this.afterCall == afterCall
    {
      this.r, this.mem, this.idt, this.afterCall := r, mem, idt, afterCall;
    }

    ghost function Now(): State
      reads this
    {
      State(r, mem)
    }

    method Push(value: Word)
      requires r.rsp >= 8
      modifies this
      ensures r == old(r).(rsp := old(r.rsp) - 8)
      ensures Holds(mem, r.rsp, value) && OnlyBetween(old(mem), mem, r.rsp, r.rsp + 8)
    {
      r := r.(rsp := r.rsp - 8);
      StoreHolds(mem, r.rsp, value);
      mem := Store(mem, r.rsp, value);
    }

    method Pop(ghost w: Word) returns (value: Word)
      requires Holds(mem, r.rsp, w)
      modifies this`r
      ensures r == old(r).(rsp := old(r.rsp) + 8) && value == w
    {
      LoadStored(mem, r.rsp, w);
      value := Load(mem, r.rsp);
      r := r.(rsp := r.rsp + 8);
    }

    method PushTwo(a: Word, b: Word)
      requires r.rsp >= 16
      modifies this
      ensures r == old(r).(rsp := old(r.rsp) - 16) && OnlyBetween(old(mem), mem, r.rsp, r.rsp + 16)
      ensures Holds(mem, r.rsp + 8, a) && Holds(mem, r.rsp, b)
    {
      ghost var m0 := mem;
      Push(a);
      ghost var m1 := mem;
      Push(b);
      StillHolds(m1, mem, r.rsp, r.rsp + 8, r.rsp + 8, a);
      OnlyThen(m0, m1, mem, r.rsp + 8, r.rsp + 16, r.rsp, r.rsp + 8, r.rsp, r.rsp + 16);
    }

    method PushFour(a: Word, b: Word, c: Word, d: Word)
      requires r.rsp >= 32
      modifies this
      ensures r == old(r).(rsp := old(r.rsp) - 32) && OnlyBetween(old(mem), mem, r.rsp, r.rsp + 32)
      ensures Holds(mem, r.rsp + 24, a) && Holds(mem, r.rsp + 16, b) && Holds(mem, r.rsp + 8, c) && Holds(mem, r.rsp, d)
    {
      ghost var m0 := mem;
      PushTwo(a, b);
      ghost var m1 := mem;
      PushTwo(c, d);
      StillHolds(m1, mem, r.rsp, r.rsp + 16, r.rsp + 24, a);
      StillHolds(m1, mem, r.rsp, r.rsp + 16, r.rsp + 16, b);
      OnlyThen(m0, m1, mem, r.rsp + 16, r.rsp + 32, r.rsp, r.rsp + 16, r.rsp, r.rsp + 32);
    }

    /** Section 7.14.2 of Intel SDM Vol. 3A: delivery through an interrupt gate without a stack switch. */
    method Deliver(vector: nat, error: Word)
      requires CanEnter(r.rsp) && vector < |idt|
      modifies this
      ensures Delivered(old(Now()), TopAt(old(r.rsp)), vector, error, Now()) && r.rip == idt[vector]
    {
      ghost var s := Now();
      var rsp := WordOf(r.rsp);
      r := r.(rsp := TopAt(r.rsp));
      PushContext(rsp, vector, error);
      r := r.(cs := WordOf(CODE64), rip := idt[vector], rflags := GateFlags(r.rflags));
    }

    /** The pushes of delivery, from the aligned stack pointer down. */
    method PushContext(rsp: Word, vector: nat, error: Word)
      requires r.rsp >= 48
      modifies this
      ensures var top := old(r.rsp);
        && r == old(r).(rsp := top - (if PushesErrorCode(vector) then 48 else 40))
        && Context(mem, top, old(r), rsp) && (PushesErrorCode(vector) ==> Holds(mem, top - 48, error))
        && OnlyBetween(old(mem), mem, top - 48, top)
    {
      ghost var m0, top, was := mem, r.rsp, r;
      PushFour(r.ss, rsp, r.rflags, r.cs);
      ghost var m1 := mem;
      Push(r.rip);
      ghost var m2 := mem;
      OnlyThen(m0, m1, m2, top - 32, top, top - 40, top - 32, top - 40, top);
      FourHold(m1, m2, top - 40, top - 32, top - 32, was.cs, was.rflags, rsp, was.ss);
      if PushesErrorCode(vector) {
        Push(error);
        OnlyThen(m0, m2, mem, top - 40, top, top - 48, top - 40, top - 48, top);
        FourHold(m2, mem, top - 48, top - 40, top - 32, was.cs, was.rflags, rsp, was.ss);
        StillHolds(m2, mem, top - 48, top - 40, top - 40, was.rip);
      }
    }

    /** The stub of a vector, up to its jump. Flags after the subtraction are `flags`. */
    method Stub(vector: nat, flags: Word)
      requires r.rsp >= 24 && SameControl(r.rflags, flags)
      modifies this
      ensures var below := old(r.rsp) - (if HasErrorStub(vector) then 16 else 24);
        && r == old(r).(rsp := below, rflags := flags, rdi := WordOf(vector))
        && Holds(mem, below, old(r.rdi)) && OnlyBetween(old(mem), mem, below, below + 8)
    {
      if HasErrorStub(vector) {
        r := r.(rsp := r.rsp - 0x8, rflags := flags);
      } else {
        r := r.(rsp := r.rsp - 0x10, rflags := flags);
      }
      Push(r.rdi);
      r := r.(rdi := WordOf(vector));
    }

    /** generic_interrupt_stub up to and including the call. */
    method Generic()
      requires r.rsp >= 72
      modifies this
      ensures Called(old(Now()), Now()) && Holds(mem, r.rsp, afterCall)
    {
      ghost var s := Now();
      PushFour(r.rax, r.rcx, r.rdx, r.rsi);
      ghost var m1 := mem;
      PushFour(r.r8, r.r9, r.r10, r.r11);
      ghost var m2 := mem;
      r := r.(rflags := r.rflags[DIRECTION := false]);
      r := r.(rsi := WordOf(r.rsp));
      Push(afterCall);
      CallParts(s, m1, m2, Now());
    }

    /** From the stub of a vector, with the context below frame + FRAME, to the first instruction of the handler. */
    method FromStub(vector: nat, flags: Word, ghost s: State, ghost frame: nat, ghost error: Word)
      requires frame >= 8 && Delivered(s, frame + FRAME, vector, error, Now()) && SameControl(r.rflags, flags)
      modifies this
      ensures EnteredWith(s, frame, vector, error, Now()) && Holds(mem, r.rsp, afterCall)
    {
      ghost var d := Now();
      StubsMatch(vector);
      Stub(vector, flags);
      ghost var b := Now();
      assert b.r.rsp == frame + 64;
      Generic();
      EntryParts(s, d, b, Now(), vector, error, frame);
    }

    /** From an interrupt in any state to the first instruction of the handler. */
    method Enter(vector: nat, error: Word, flags: Word)
      requires CanEnter(r.rsp) && vector < |idt| && SameControl(GateFlags(r.rflags), flags)
      modifies this
      ensures Entered(old(Now()), vector, error, Now()) && Holds(mem, r.rsp, afterCall)
    {
      ghost var s := Now();
      FrameAligned(s.r.rsp);
      Deliver(vector, error);
      FromStub(vector, flags, s, FrameAt(s.r.rsp), error);
    }

    method PopFour(ghost w: Word, ghost x: Word, ghost y: Word, ghost z: Word) returns (a: Word, b: Word, c: Word, d: Word)
      requires Holds(mem, r.rsp, w) && Holds(mem, r.rsp + 8, x) && Holds(mem, r.rsp + 16, y) && Holds(mem, r.rsp + 24, z)
      modifies this`r
      ensures r == old(r).(rsp := old(r.rsp) + 32) && a == w && b == x && c == y && d == z
    {
      a := Pop(w);
      b := Pop(x);
      c := Pop(y);
      d := Pop(z);
    }

    /**
      The exit path: from the return of the handler to the interrupted code, whose registers are in the frame.
      Flags after the addition are lost in iretq.
     */
    method Leave(flags: Word, ghost saved: Regs)
      requires Saved(mem, r.rsp, saved) && saved.rsp < TWO64 && SameControl(r.rflags, flags)
      modifies this`r
      ensures Left(old(Now()), Now())
    {
      var r11, r10, r9, r8 := PopFour(saved.r11, saved.r10, saved.r9, saved.r8);
      r := r.(r11 := r11, r10 := r10, r9 := r9, r8 := r8);
      var rsi, rdx, rcx, rax := PopFour(saved.rsi, saved.rdx, saved.rcx, saved.rax);
      r := r.(rsi := rsi, rdx := rdx, rcx := rcx, rax := rax);
      var rdi := Pop(saved.rdi);
      r := r.(rdi := rdi);
      r := r.(rsp := r.rsp + 0x10, rflags := flags);
      Iretq(saved);
    }

    method Iretq(ghost saved: Regs)
      requires Holds(mem, r.rsp, saved.rip) && Holds(mem, r.rsp + 8, saved.cs) && Holds(mem, r.rsp + 16, saved.rflags)
      requires Holds(mem, r.rsp + 24, WordOf(saved.rsp)) && Holds(mem, r.rsp + 32, saved.ss) && saved.rsp < TWO64
      modifies this`r
      ensures r == old(r).(rip := saved.rip, cs := saved.cs, rflags := saved.rflags, rsp := saved.rsp, ss := saved.ss)
    {
      var rip, cs, rflags, stack := PopFour(saved.rip, saved.cs, saved.rflags, WordOf(saved.rsp));
      var ss := Pop(saved.ss);
      AddressWord(saved.rsp);
      r := r.(rip := rip, cs := cs, rflags := rflags, rsp := NatOf(stack), ss := ss);
    }

    /** Back from a handler that was entered from state `s` and kept its frame and the calling convention, exit restores every register. */
    method Resume(flags: Word, ghost s: State, ghost vector: nat, ghost error: Word, ghost first: State, ghost kept: set<nat>)
      requires Entered(s, vector, error, first) && AbiReturn(first, Now())
      requires Agree(first.mem, mem, kept + Slots(FrameAt(s.r.rsp))) && SameControl(r.rflags, flags)
      modifies this`r
      ensures r == s.r
    {
      ghost var last := Now();
      FrameSurvives(s, vector, error, kept, first, last);
      Leave(flags, s.r);
      OnlyExit(s, last, Now());
    }
  }

  // ----- The pieces of entry

  /** The interrupted context below `top`. */
  ghost predicate Context(mem: Bytes, top: nat, r: Regs, rsp: Word) {
    && top >= 40
    && Holds(mem, top - 8, r.ss) && Holds(mem, top - 16, rsp)
    && Holds(mem, top - 24, r.rflags) && Holds(mem, top - 32, r.cs) && Holds(mem, top - 40, r.rip)
  }

  /** Delivery pushed the interrupted context below `top`, and the error code, if there is one. */
  ghost predicate Delivered(s: State, top: nat, vector: nat, error: Word, t: State) {
    && top >= 48 && Context(t.mem, top, s.r, WordOf(s.r.rsp))
    && (PushesErrorCode(vector) ==> Holds(t.mem, top - 48, error))
    && OnlyBetween(s.mem, t.mem, top - 48, top)
    && t.r == s.r.(rsp := top - (if PushesErrorCode(vector) then 48 else 40), cs := WordOf(CODE64), rip := t.r.rip,
                   rflags := GateFlags(s.r.rflags))
  }

  /** The common stub saved the caller-saved registers below the stack pointer and called the handler with the frame. */
  ghost predicate Called(s: State, t: State) {
    && s.r.rsp >= 72
    && var top := s.r.rsp;
      && Holds(t.mem, top - 8, s.r.rax) && Holds(t.mem, top - 16, s.r.rcx)
      && Holds(t.mem, top - 24, s.r.rdx) && Holds(t.mem, top - 32, s.r.rsi)
      && Holds(t.mem, top - 40, s.r.r8) && Holds(t.mem, top - 48, s.r.r9)
      && Holds(t.mem, top - 56, s.r.r10) && Holds(t.mem, top - 64, s.r.r11)
      && OnlyBetween(s.mem, t.mem, top - 72, top)
      && t.r == s.r.(rsp := top - 72, rsi := WordOf(top - 64), rflags := s.r.rflags[DIRECTION := false])
  }

  lemma FrameAligned(rsp: nat)
    requires rsp >= ROOM
    ensures FrameAt(rsp) % 16 == 0 && FrameAt(rsp) >= 8
  {
  }

  lemma FourHold(mem: Bytes, mem': Bytes, lo: nat, hi: nat, a: nat, w0: Word, w1: Word, w2: Word, w3: Word)
    requires OnlyBetween(mem, mem', lo, hi) && hi <= a
    requires Holds(mem, a, w0) && Holds(mem, a + 8, w1) && Holds(mem, a + 16, w2) && Holds(mem, a + 24, w3)
    ensures Holds(mem', a, w0) && Holds(mem', a + 8, w1) && Holds(mem', a + 16, w2) && Holds(mem', a + 24, w3)
  {
    StillHolds(mem, mem', lo, hi, a, w0);
    StillHolds(mem, mem', lo, hi, a + 8, w1);
    StillHolds(mem, mem', lo, hi, a + 16, w2);
    StillHolds(mem, mem', lo, hi, a + 24, w3);
  }

  lemma CallParts(s: State, m1: Bytes, m2: Bytes, t: State)
    requires s.r.rsp >= 72
    requires var top := s.r.rsp;
      && OnlyBetween(s.mem, m1, top - 32, top) && OnlyBetween(m1, m2, top - 64, top - 32) && OnlyBetween(m2, t.mem, top - 72, top - 64)
      && Holds(m1, top - 8, s.r.rax) && Holds(m1, top - 16, s.r.rcx) && Holds(m1, top - 24, s.r.rdx) && Holds(m1, top - 32, s.r.rsi)
      && Holds(m2, top - 40, s.r.r8) && Holds(m2, top - 48, s.r.r9) && Holds(m2, top - 56, s.r.r10) && Holds(m2, top - 64, s.r.r11)
      && t.r == s.r.(rsp := top - 72, rsi := WordOf(top - 64), rflags := s.r.rflags[DIRECTION := false])
    ensures Called(s, t)
  {
    var top := s.r.rsp;
    OnlyThen(m1, m2, t.mem, top - 64, top - 32, top - 72, top - 64, top - 72, top - 32);
    OnlyThen(s.mem, m1, t.mem, top - 32, top, top - 72, top - 32, top - 72, top);
    FourHold(m1, t.mem, top - 72, top - 32, top - 32, s.r.rsi, s.r.rdx, s.r.rcx, s.r.rax);
    FourHold(m2, t.mem, top - 72, top - 64, top - 64, s.r.r11, s.r.r10, s.r.r9, s.r.r8);
  }

  /** Delivery, stub and common part together build the frame. */
  lemma EntryParts(s: State, d: State, b: State, t: State, vector: nat, error: Word, frame: nat)
    requires frame >= 8 && Delivered(s, frame + FRAME, vector, error, d)
    requires b.r == d.r.(rsp := frame + 64, rflags := b.r.rflags, rdi := WordOf(vector)) && SameControl(d.r.rflags, b.r.rflags)
    requires Holds(b.mem, frame + 64, d.r.rdi) && OnlyBetween(d.mem, b.mem, frame + 64, frame + 72)
    requires Called(b, t)
    ensures EnteredWith(s, frame, vector, error, t)
  {
    var lo: nat, hi := frame - 8, frame + 72;
    StillHolds(b.mem, t.mem, lo, frame + 64, frame + 64, s.r.rdi);
    OnlyThen(d.mem, b.mem, t.mem, frame + 64, frame + 72, lo, frame + 64, lo, hi);
    FourHold(d.mem, t.mem, lo, hi, frame + 96, s.r.cs, s.r.rflags, WordOf(s.r.rsp), s.r.ss);
    StillHolds(d.mem, t.mem, lo, hi, frame + 88, s.r.rip);
    if PushesErrorCode(vector) { StillHolds(d.mem, t.mem, lo, hi, frame + 80, error); }
    OnlyThen(s.mem, d.mem, t.mem, frame + 80, frame + FRAME, lo, hi, lo, frame + FRAME);
  }

  // ----- Nesting

  ghost predicate Agree(mem: Bytes, mem': Bytes, kept: set<nat>) {
    forall a: nat {:trigger SameAt(mem, mem', a)} :: a in kept ==> SameAt(mem, mem', a)
  }

  predicate InFrame(a: nat, frame: nat) {
    frame <= a < frame + FRAME
  }

  /** The bytes of a frame. */
  function Slots(frame: nat): set<nat> {
    set a: nat | a < frame + FRAME && InFrame(a, frame)
  }

  /** Ordinary code of a handler: it may do anything but use the stack above its frame or change a byte it must keep. */
  ghost predicate Work(kept: set<nat>, frame: nat, s: State, t: State) {
    Agree(s.mem, t.mem, kept) && t.r.rsp <= frame
  }

  /** While a handler runs, its code executes or another interrupt is serviced, up to `depth` of them inside each other. */
  ghost predicate HandlerStep(depth: nat, kept: set<nat>, frame: nat, s: State, t: State)
    decreases depth, 0
  {
    Work(kept, frame, s, t)
    || (depth > 0 && Nested(depth - 1, kept, s, t))
  }

  ghost predicate Nested(depth: nat, kept: set<nat>, s: State, t: State)
    decreases depth, 4
  {
    exists vector, error :: Serviced(depth, s, kept, vector, error, t)
  }

  ghost predicate HandlerRun(depth: nat, kept: set<nat>, frame: nat, run: seq<State>)
    decreases depth, 1
  {
    |run| > 0 && forall i: nat :: i < |run| - 1 ==> HandlerStep(depth, kept, frame, run[i], run[i + 1])
  }

  /** The handler returned as the calling convention demands. */
  predicate AbiReturn(s: State, t: State) {
    t.r.rsp == s.r.rsp + 8 && CalleeSaved(s.r, t.r)
  }

  /** An interrupt taken in state `s`, while the bytes in `kept` belong to suspended code, was handled: its handler has returned in state `last`. */
  ghost predicate Handled(depth: nat, s: State, kept: set<nat>, vector: nat, error: Word, last: State)
    decreases depth, 2
  {
    && CanEnter(s.r.rsp) && (forall a :: a in kept ==> a >= s.r.rsp)
    && exists run: seq<State> ::
      && HandlerRun(depth, kept + Slots(FrameAt(s.r.rsp)), FrameAt(s.r.rsp), run)
      && Entered(s, vector, error, run[0])
      && last == run[|run| - 1] && AbiReturn(run[0], last)
  }

  /** It was serviced in state `t`: the exit path has run as well. */
  ghost predicate Serviced(depth: nat, s: State, kept: set<nat>, vector: nat, error: Word, t: State)
    decreases depth, 3
  {
    exists last :: Handled(depth, s, kept, vector, error, last) && Left(last, t)
  }

  lemma AgreeThen(m0: Bytes, m1: Bytes, m2: Bytes, kept: set<nat>)
    requires Agree(m0, m1, kept) && Agree(m1, m2, kept)
    ensures Agree(m0, m2, kept)
  {
    forall a: nat | a in kept
      ensures SameAt(m0, m2, a)
    {
      assert SameAt(m0, m1, a) && SameAt(m1, m2, a);
    }
  }

  lemma AgreeLess(mem: Bytes, mem': Bytes, kept: set<nat>, fewer: set<nat>)
    requires Agree(mem, mem', kept) && fewer <= kept
    ensures Agree(mem, mem', fewer)
  {
  }

  lemma KeptHolds(mem: Bytes, mem': Bytes, kept: set<nat>, frame: nat, a: nat, w: Word)
    requires Agree(mem, mem', kept + Slots(frame)) && frame <= a && a + 8 <= frame + FRAME && Holds(mem, a, w)
    ensures Holds(mem', a, w)
  {
    forall b: nat | a <= b < a + 8
      ensures ByteAt(mem', a, w, b)
    {
      assert ByteAt(mem, a, w, b) && SameAt(mem, mem', b);
    }
  }

  lemma SavedKept(mem: Bytes, mem': Bytes, kept: set<nat>, frame: nat, r: Regs)
    requires Saved(mem, frame, r) && Agree(mem, mem', kept + Slots(frame))
    ensures Saved(mem', frame, r)
  {
    KeptHolds(mem, mem', kept, frame, frame, r.r11);
    KeptHolds(mem, mem', kept, frame, frame + 8, r.r10);
    KeptHolds(mem, mem', kept, frame, frame + 16, r.r9);
    KeptHolds(mem, mem', kept, frame, frame + 24, r.r8);
    KeptHolds(mem, mem', kept, frame, frame + 32, r.rsi);
    KeptHolds(mem, mem', kept, frame, frame + 40, r.rdx);
    KeptHolds(mem, mem', kept, frame, frame + 48, r.rcx);
    KeptHolds(mem, mem', kept, frame, frame + 56, r.rax);
    KeptHolds(mem, mem', kept, frame, frame + 64, r.rdi);
    KeptHolds(mem, mem', kept, frame, frame + 88, r.rip);
    KeptHolds(mem, mem', kept, frame, frame + 96, r.cs);
    KeptHolds(mem, mem', kept, frame, frame + 104, r.rflags);
    KeptHolds(mem, mem', kept, frame, frame + 112, WordOf(r.rsp));
    KeptHolds(mem, mem', kept, frame, frame + 120, r.ss);
  }

  /** When the handler returns, the stack pointer is back at the frame and the frame still holds the interrupted context: the exit path can run. */
  lemma FrameSurvives(s: State, vector: nat, error: Word, kept: set<nat>, first: State, last: State)
    requires Entered(s, vector, error, first) && Agree(first.mem, last.mem, kept + Slots(FrameAt(s.r.rsp)))
    requires AbiReturn(first, last)
    ensures Saved(last.mem, last.r.rsp, s.r) && CalleeSaved(s.r, last.r)
  {
    SavedKept(first.mem, last.mem, kept, FrameAt(s.r.rsp), s.r);
  }

  /** A frame determines the registers that the exit path loads from it. */
  lemma SavedOnce(mem: Bytes, frame: nat, r: Regs, r': Regs)
    requires Saved(mem, frame, r) && Saved(mem, frame, r') && r.rsp < TWO64 && r'.rsp < TWO64 && CalleeSaved(r, r')
    ensures r == r'
  {
    HoldsOnce(mem, frame, r.r11, r'.r11);
    HoldsOnce(mem, frame + 8, r.r10, r'.r10);
    HoldsOnce(mem, frame + 16, r.r9, r'.r9);
    HoldsOnce(mem, frame + 24, r.r8, r'.r8);
    HoldsOnce(mem, frame + 32, r.rsi, r'.rsi);
    HoldsOnce(mem, frame + 40, r.rdx, r'.rdx);
    HoldsOnce(mem, frame + 48, r.rcx, r'.rcx);
    HoldsOnce(mem, frame + 56, r.rax, r'.rax);
    HoldsOnce(mem, frame + 64, r.rdi, r'.rdi);
    HoldsOnce(mem, frame + 88, r.rip, r'.rip);
    HoldsOnce(mem, frame + 96, r.cs, r'.cs);
    HoldsOnce(mem, frame + 104, r.rflags, r'.rflags);
    HoldsOnce(mem, frame + 112, WordOf(r.rsp), WordOf(r'.rsp));
    HoldsOnce(mem, frame + 120, r.ss, r'.ss);
    AddressWord(r.rsp);
    AddressWord(r'.rsp);
  }

  /** From there the exit path has one outcome: the interrupted registers, with memory as the handler left it. */
  lemma OnlyExit(s: State, last: State, t: State)
    requires Saved(last.mem, last.r.rsp, s.r) && CalleeSaved(s.r, last.r) && s.r.rsp < TWO64
    ensures Left(last, t) <==> t == State(s.r, last.mem)
  {
    if Left(last, t) { SavedOnce(last.mem, last.r.rsp, s.r, t.r); }
  }

  /** Entry writes nothing that suspended code keeps. */
  lemma EntryKeeps(s: State, vector: nat, error: Word, t: State, kept: set<nat>)
    requires Entered(s, vector, error, t) && forall a :: a in kept ==> a >= s.r.rsp
    ensures Agree(s.mem, t.mem, kept)
  {
  }

  /**
    For every vector, every state and every depth of nesting: when a handler that respects the calling convention has
    returned, the exit path can run, its only outcome is the interrupted context with all registers restored, and
    no byte that suspended code keeps has changed.
   */
  lemma {:induction false} InterruptTransparent(depth: nat, s: State, kept: set<nat>, vector: nat, error: Word, last: State)
    requires Handled(depth, s, kept, vector, error, last)
    ensures Saved(last.mem, last.r.rsp, s.r) && Agree(s.mem, last.mem, kept)
    ensures forall t :: Left(last, t) <==> t == State(s.r, last.mem)
    decreases depth, 1, 0
  {
    var frame := FrameAt(s.r.rsp);
    var kept' := kept + Slots(frame);
    var run: seq<State> :| && HandlerRun(depth, kept', frame, run)
                           && Entered(s, vector, error, run[0])
                           && last == run[|run| - 1] && AbiReturn(run[0], last);
    RunKeeps(depth, kept', frame, run, |run| - 1);
    FrameSurvives(s, vector, error, kept, run[0], last);
    EntryKeeps(s, vector, error, run[0], kept);
    AgreeLess(run[0].mem, last.mem, kept', kept);
    AgreeThen(s.mem, run[0].mem, last.mem, kept);
    forall t
      ensures Left(last, t) <==> t == State(s.r, last.mem)
    {
      OnlyExit(s, last, t);
    }
  }

  /** A handler that returns at once is handled in this sense, at any depth: the notion can be met from every state. */
  lemma IdleHandler(depth: nat, s: State, kept: set<nat>, vector: nat, error: Word, first: State, last: State)
    requires Entered(s, vector, error, first) && forall a :: a in kept ==> a >= s.r.rsp
    requires last == State(first.r.(rsp := first.r.rsp + 8), first.mem)
    ensures Handled(depth, s, kept, vector, error, last)
  {
    var run := [first, last];
    assert Work(kept + Slots(FrameAt(s.r.rsp)), FrameAt(s.r.rsp), run[0], run[1]);
    assert HandlerRun(depth, kept + Slots(FrameAt(s.r.rsp)), FrameAt(s.r.rsp), run);
  }

  /** Every handled interrupt is serviced, and in one way only. */
  lemma ServicedExactly(depth: nat, s: State, kept: set<nat>, vector: nat, error: Word, last: State)
    requires Handled(depth, s, kept, vector, error, last)
    ensures Serviced(depth, s, kept, vector, error, State(s.r, last.mem))
  {
    InterruptTransparent(depth, s, kept, vector, error, last);
    assert Left(last, State(s.r, last.mem));
  }

  lemma {:induction false} RunKeeps(depth: nat, kept: set<nat>, frame: nat, run: seq<State>, i: nat)
    requires HandlerRun(depth, kept, frame, run) && i < |run|
    ensures Agree(run[0].mem, run[i].mem, kept)
    decreases depth, 0, i
  {
    if i > 0 {
      RunKeeps(depth, kept, frame, run, i - 1);
      assert HandlerStep(depth, kept, frame, run[i - 1], run[i - 1 + 1]);
      if !Work(kept, frame, run[i - 1], run[i]) {
        NestedKeeps(depth - 1, kept, run[i - 1], run[i]);
      }
      AgreeThen(run[0].mem, run[i - 1].mem, run[i].mem, kept);
    }
  }

  /** An interrupt inside a handler gives it back its registers and every byte it keeps. */
  lemma {:induction false} NestedKeeps(depth: nat, kept: set<nat>, s: State, t: State)
    requires Nested(depth, kept, s, t)
    ensures t.r == s.r && Agree(s.mem, t.mem, kept)
    decreases depth, 2, 0
  {
    var vector, error :| Serviced(depth, s, kept, vector, error, t);
    var last :| Handled(depth, s, kept, vector, error, last) && Left(last, t);
    InterruptTransparent(depth, s, kept, vector, error, last);
  }
}
