/**
 * The part of `ProcessorState` both trees share: the register file, `cr2`,
 * the privilege level, the interrupt stack pointer, the interrupt table, the
 * instruction pointer and the flags, over the memory unit; and `interrupt`,
 * which is the same code in both trees apart from the simulator's IRQ
 * vectors.
 */
module Cpu {
  import opened Bits
  import opened Interrupts
  import opened Physical
  import opened Paging

  /** Register 4 is the stack pointer. */
  const SP: nat := 4

  /** The fields of the processor, as values. `regions` and `root` are the memory unit's. */
  datatype CoreState = CoreState(
    regs: seq<u64>, cr2: u64, cpl: i8, isp: u64, idt: u64, rip: u64, rflags: u64,
    regions: seq<Region>, root: u64)

  predicate Fit(c: CoreState) { |c.regs| == 16 && ModulesFit(c.regions) }

  // ---- The interrupt frame ----

  /** The pushed flags word: `((cpl as i64 as u64) << 32) | rflags`. */
  function FlagsWord(cpl: i8, rflags: u64): u64 { Or64(Shl64(I8ToU64(cpl), 32), rflags) }

  /** `((rflags as i64) >> 32) as i8`: bits 32..39 of the word, read as a signed byte. */
  function CplOf(flags: u64): i8 { AsI8((flags / 0x1_0000_0000) % 0x100) }

  /** Word `k` of the frame is written at `new_stack_pointer - 8 * (k + 1)`, wrapping. */
  function FrameSlot(nsp: u64, k: nat): u64 { Wrap(nsp - 8 * (k + 1)) }

  /**
   * The `write_u64` calls of the frame from word `k` on, each at its slot:
   * the first fault stops them and keeps what was written before it.
   */
  function PushFrom(regions: seq<Region>, root: u64, nsp: u64, words: seq<u64>, k: nat): (r: (seq<Region>, Result<()>))
    requires ModulesFit(regions) && k <= |words|
    ensures ModulesFit(r.0) && |r.0| == |regions|
    decreases |words| - k
  {
    if k == |words| then (regions, Ok(()))
    else
      var (next, w) := WriteFrom(regions, root, FrameSlot(nsp, k), ToLe(words[k], 8), 0);
      if w.Err? then (next, w) else PushFrom(next, root, nsp, words, k + 1)
  }

  /** The stack pointer once the four words are pushed: `new_stack_pointer - 32`, wrapping. */
  function FrameBase(nsp: u64): u64 { Wrap(nsp - 32) }

  /** The descriptor of a vector lies at `idt + 16 * vector`, wrapping. */
  function DescriptorAddress(idt: u64, vector: u64): u64 { Wrap(idt + DESCRIPTOR_SIZE * vector) }

  /** The stack the frame goes on: the current one at privilege level 0 or below, else the interrupt stack. */
  function StackTop(c: CoreState): u64
    requires |c.regs| == 16
  {
    if c.cpl <= 0 then c.regs[SP] else c.isp
  }

  /** The words of the frame, first written first: old rsp, flags word, rip, error code. */
  function FrameWords(c: CoreState, error: u64): seq<u64>
    requires |c.regs| == 16
  {
    [c.regs[SP], FlagsWord(c.cpl, c.rflags), c.rip, error]
  }

  /** The outcome of one attempt to enter a handler; a failed attempt keeps the bytes it wrote. */
  datatype Entry = Entered(core: CoreState) | Failed(core: CoreState)

  /** The entry read for a vector, when its sixteen bytes can be read. */
  function DescriptorOf(c: CoreState, vector: u64): Option<DescriptorEntry>
    requires Fit(c)
  {
    VirtReadBytesOk(c.regions, c.root, DescriptorAddress(c.idt, vector), DESCRIPTOR_SIZE);
    match VirtReadBytes(c.regions, c.root, DescriptorAddress(c.idt, vector), DESCRIPTOR_SIZE)
    case Err(_) => None
    case Ok(data) => Some(DecodeDescriptor(data))
  }

  /** A handler can be entered from privilege level `cpl`: present, and `rpl` not below `cpl`. */
  predicate Admits(entry: DescriptorEntry, cpl: i8) { entry.present && entry.rpl >= cpl }

  /**
   * The body of the `try` block of `interrupt`, given the outcome `d` of the
   * descriptor read: check the entry, push the frame, and only when all four
   * writes succeed commit rip, rsp and the privilege level.
   */
  function EnterHandler(c: CoreState, d: Option<DescriptorEntry>, error: u64): (e: Entry)
    requires Fit(c)
    ensures Fit(e.core) && |e.core.regions| == |c.regions|
    ensures e.Failed? ==> e.core == c.(regions := e.core.regions)
    ensures (d.None? || !Admits(d.value, c.cpl)) ==> e == Failed(c)
    ensures e.Entered? ==> d.Some? && Admits(d.value, c.cpl)
    ensures e.Entered? ==> e.core == Committed(c, d.value.serviceRoutine).(regions := e.core.regions)
    ensures d.Some? && Admits(d.value, c.cpl) ==>
      (e.Entered? <==> PushFrom(c.regions, c.root, StackTop(c), FrameWords(c, error), 0).1.Ok?) &&
      e.core.regions == PushFrom(c.regions, c.root, StackTop(c), FrameWords(c, error), 0).0
  {
    match d
    case None => Failed(c)
    case Some(entry) =>
      if !Admits(entry, c.cpl) then Failed(c)
      else
        var nsp := StackTop(c);
        var (regions, w) := PushFrom(c.regions, c.root, nsp, FrameWords(c, error), 0);
        if w.Err? then Failed(c.(regions := regions))
        else Entered(Committed(c, entry.serviceRoutine).(regions := regions))
  }

  /** The commit after the frame is written: the handler's rip, rsp below the frame, level 0. */
  function Committed(c: CoreState, routine: u64): CoreState
    requires |c.regs| == 16
  {
    c.(rip := routine, regs := c.regs[SP := FrameBase(StackTop(c))], cpl := 0)
  }

  /** The attempt for a vector: its descriptor as read from the table, then `EnterHandler`. */
  function EnterVector(c: CoreState, vector: u64, error: u64): Entry
    requires Fit(c)
  {
    EnterHandler(c, DescriptorOf(c, vector), error)
  }

  /**
   * `interrupt`: a page fault first records its address in `cr2`; then the
   * handler of the vector is entered. A failed entry is retried as a double
   * fault, and a failed double fault halts ("Tripple fault", `None`).
   */
  function Deliver(c: CoreState, i: Interrupt): (r: Option<CoreState>)
    requires Fit(c)
    ensures r.Some? ==> Fit(r.value) && r.value.cpl == 0
    ensures r.Some? ==> r.value.cr2 == (if i.PageFault? then i.cr2 else c.cr2)
    ensures r.Some? ==> r.value.rflags == c.rflags && r.value.isp == c.isp && r.value.idt == c.idt && r.value.root == c.root
    ensures i.DoubleFault? ==> (r.None? <==> EnterVector(c, 0x08, 0).Failed?)
    decreases if i.DoubleFault? then 0 else 1
  {
    var c1 := if i.PageFault? then c.(cr2 := i.cr2) else c;
    var (vector, error) := VectorAndError(i);
    match EnterVector(c1, vector, error)
    case Entered(c2) => Some(c2)
    case Failed(c2) => if i.DoubleFault? then None else Deliver(c2, DoubleFault)
  }

  // ---- Properties of dispatch ----

  /**
   * A descriptor that cannot be read, is not present, or has `rpl < cpl`
   * turns any interrupt other than a double fault into a double fault, with
   * nothing written (only `cr2` of a page fault is kept).
   */
  lemma RejectedBecomesDoubleFault(c: CoreState, i: Interrupt)
    requires Fit(c) && !i.DoubleFault?
    requires var c1 := if i.PageFault? then c.(cr2 := i.cr2) else c;
      var d := DescriptorOf(c1, VectorAndError(i).0);
      d.None? || !Admits(d.value, c.cpl)
    ensures Deliver(c, i) == Deliver(if i.PageFault? then c.(cr2 := i.cr2) else c, DoubleFault)
  {
    var c1 := if i.PageFault? then c.(cr2 := i.cr2) else c;
    assert DescriptorOf(c1, VectorAndError(i).0) == DescriptorOf(c, VectorAndError(i).0);
  }

  /** An interrupt other than a double fault halts only when its own entry and the double fault's both fail. */
  lemma HaltsOnlyAfterDoubleFault(c: CoreState, i: Interrupt)
    requires Fit(c) && !i.DoubleFault?
    ensures var c1 := if i.PageFault? then c.(cr2 := i.cr2) else c;
      var e := EnterVector(c1, VectorAndError(i).0, VectorAndError(i).1);
      Deliver(c, i).None? <==> e.Failed? && EnterVector(e.core, 0x08, 0).Failed?
  {
  }

  /** The frame is pushed on the current stack at level 0 or below and on the interrupt stack above it. */
  lemma EnteredStack(c: CoreState, d: Option<DescriptorEntry>, error: u64)
    requires Fit(c) && EnterHandler(c, d, error).Entered?
    ensures EnterHandler(c, d, error).core.regs[SP] == FrameBase(StackTop(c))
    ensures forall r | 0 <= r < 16 && r != SP :: EnterHandler(c, d, error).core.regs[r] == c.regs[r]
  {
    var e := EnterHandler(c, d, error);
    assert e.core.regs == Committed(c, d.value.serviceRoutine).regs;
  }

  /** With flags below 2^32 the pushed word carries the privilege level in bits 32..39 and the flags below. */
  lemma FlagsWordRoundTrip(cpl: i8, rflags: u64)
    requires rflags < 0x1_0000_0000
    ensures CplOf(FlagsWord(cpl, rflags)) == cpl
    ensures FlagsWord(cpl, rflags) % 0x1_0000_0000 == rflags
  {
    var high := I8ToU64(cpl);
    OrShifted32(high, rflags);
    var w := FlagsWord(cpl, rflags);
    DivModUnique(w, 0x1_0000_0000, high % 0x1_0000_0000, rflags);
    LowByteOfLowHalf(high);
    I8LowByte(cpl);
  }

  lemma LowByteOfLowHalf(h: nat)
    ensures (h % 0x1_0000_0000) % 0x100 == h % 0x100
  {
    ModSplit(h, 0x100, 0x100_0000);
    DivModUnique(h % 0x1_0000_0000, 0x100, (h / 0x100) % 0x100_0000, h % 0x100);
  }

  /** The low byte of a sign-extended i8, read back as an i8, is the i8. */
  lemma I8LowByte(x: i8)
    ensures AsI8(I8ToU64(x) % 0x100) == x
  {
    if x < 0 {
      DivModUnique(x + TWO_64, 0x100, TWO_64 / 0x100 - 1, x + 0x100);
    }
  }

  /**
   * At level 0 the pushed word is the flags themselves, so `iret` takes the
   * new level from bits 32..39 of the flags rather than restoring 0.
   */
  lemma FlagsWordAtLevelZero(cpl: i8, rflags: u64)
    requires cpl == 0
    ensures FlagsWord(cpl, rflags) == rflags
    ensures CplOf(FlagsWord(cpl, rflags)) == AsI8((rflags / 0x1_0000_0000) % 0x100)
  {
    assert Shl64(I8ToU64(cpl), 32) == 0;
    ZeroOr(rflags);
  }

  /** Flags `k * 2^32` pushed at level 0, for `0 <= k < 0x80`, come back as level `k`. */
  lemma FlagsWordHighBits(cpl: i8, rflags: u64, k: nat)
    requires cpl == 0 && k < 0x80 && rflags == k * 0x1_0000_0000
    ensures CplOf(FlagsWord(cpl, rflags)) == k
  {
    FlagsWordAtLevelZero(cpl, rflags);
    DivModUnique(rflags, 0x1_0000_0000, k, 0);
  }

  // ---- The processor core as an object ----

  /** The fields of `ProcessorState` that `interrupt` reads and writes, and the memory unit. */
  class Core {
    const regs: array<u64>
    var cr2: u64
    var cpl: i8
    var isp: u64
    var idt: u64
    var rip: u64
    var rflags: u64
    const mmu: MemoryManagementUnit

    ghost predicate Valid()
      reads this, mmu, mmu.physical
    {
      regs.Length == 16 && mmu.Valid()
    }

    function State(): CoreState
      reads this, regs, mmu, mmu.physical
    {
      CoreState(regs[..], cr2, cpl, isp, idt, rip, rflags, mmu.physical.regions, mmu.pagingTableAddress)
    }

    /** `ProcessorState::new`: every register and field zero. */
    constructor(mmu: MemoryManagementUnit)
      requires mmu.Valid()
      ensures Valid() && fresh(regs) && this.mmu == mmu
      ensures State() == CoreState(seq(16, _ => 0), 0, 0, 0, 0, 0, 0, mmu.physical.regions, mmu.pagingTableAddress)
    {
      regs := new u64[16](_ => 0);
      cr2, cpl, isp, idt, rip, rflags := 0, 0, 0, 0, 0, 0;
      this.mmu := mmu;
    }

    /** `interrupt`. `halted` is the triple fault; the state it leaves is not described. */
    method Interrupt(i: Interrupt) returns (halted: bool)
      requires Valid()
      modifies this, regs, mmu.physical
      ensures Valid()
      ensures halted <==> Deliver(old(State()), i).None?
      ensures !halted ==> State() == Deliver(old(State()), i).value
      decreases if i.DoubleFault? then 0 else 1
    {
      if i.PageFault? {
        cr2 := i.cr2;
      }
      var (vector, error) := VectorAndError(i);
      var d := ReadDescriptor(vector);
      var entered := Enter(d, error);
      if entered {
        return false;
      }
      if i.DoubleFault? {
        return true;
      }
      halted := Interrupt(DoubleFault);
    }

    /** The sixteen `read_u8` calls of the descriptor at `idt + 16 * vector`. */
    method ReadDescriptor(vector: u64) returns (d: Option<DescriptorEntry>)
      requires Valid()
      ensures d == DescriptorOf(State(), vector)
    {
      var buffer := new u8[DESCRIPTOR_SIZE](_ => 0);
      var ptr := DescriptorAddress(idt, vector);
      WrapSmall(ptr);
      var read := ReadBytesInto(mmu, ptr, 0, buffer, DESCRIPTOR_SIZE);
      if read.Err? {
        return None;
      }
      assert buffer[..] == buffer[..DESCRIPTOR_SIZE];
      return Some(DecodeDescriptor(buffer[..]));
    }

    /** The checks, the frame and the commit of the `try` block. */
    method Enter(d: Option<DescriptorEntry>, error: u64) returns (entered: bool)
      requires Valid()
      modifies this, regs, mmu.physical
      ensures Valid()
      ensures entered <==> EnterHandler(old(State()), d, error).Entered?
      ensures State() == EnterHandler(old(State()), d, error).core
    {
      if d.None? || !d.value.present || d.value.rpl < cpl {
        return false;
      }
      ghost var c := State();
      var sp := regs[SP];
      var nsp := if cpl <= 0 then sp else isp;
      var flags: u64 := FlagsWord(cpl, rflags);
      var words: seq<u64> := [sp, flags, rip, error];
      assert words == FrameWords(c, error);
      entered := PushFrame(nsp, words);
      if !entered {
        return false;
      }
      rip := d.value.serviceRoutine;
      regs[SP] := FrameBase(nsp);
      cpl := 0;
      assert State().regs == Committed(c, d.value.serviceRoutine).regs;
    }

    /** The four `write_u64` calls of the frame. */
    method PushFrame(nsp: u64, words: seq<u64>) returns (ok: bool)
      requires Valid() && |words| == 4
      modifies mmu.physical
      ensures Valid()
      ensures mmu.physical.regions == PushFrom(old(mmu.physical.regions), mmu.pagingTableAddress, nsp, words, 0).0
      ensures ok <==> PushFrom(old(mmu.physical.regions), mmu.pagingTableAddress, nsp, words, 0).1.Ok?
    {
      var k := 0;
      while k < 4
        invariant 0 <= k <= 4 && Valid()
        invariant PushFrom(mmu.physical.regions, mmu.pagingTableAddress, nsp, words, k) ==
          PushFrom(old(mmu.physical.regions), mmu.pagingTableAddress, nsp, words, 0)
      {
        var w := mmu.WriteU64(FrameSlot(nsp, k), words[k]);
        if w.Err? {
          return false;
        }
        k := k + 1;
      }
      return true;
    }
  }
}
