/**
 * The simulator's `ProcessorState`: the register file at each operand width,
 * the ModR/M operand addresses, the execution of each decoded instruction,
 * and `step_instruction`, which takes a pending IRQ first, then decodes and
 * executes one instruction and hands any fault to `interrupt`.
 */
module Simulator {
  import opened Bits
  import opened Interrupts
  import opened Physical
  import opened Paging
  import opened Decoder
  import opened Dispatch
  import opened Devices
  import opened Cpu

  /** The accumulator, register 0. */
  const A: Selector := 0

  // ---- Operand widths and the register file ----

  datatype Width = W8 | W16 | W32 | W64

  function Bytes(w: Width): nat {
    match w
    case W8 => 1
    case W16 => 2
    case W32 => 4
    case W64 => 8
  }

  /** One more than the largest value of the width: `256^Bytes(w)`. */
  function Limit(w: Width): (r: nat)
    ensures r == Pow256(Bytes(w))
  {
    Pow256Table();
    match w
    case W8 => 0x100
    case W16 => 0x1_0000
    case W32 => 0x1_0000_0000
    case W64 => TWO_64
  }

  /** `wrapping_add(1)` at the width: one more, or zero from the largest value. */
  function WrappingInc(w: Width, v: nat): (r: nat)
    requires v < Limit(w)
    ensures r < Limit(w)
    ensures r == if v + 1 == Limit(w) then 0 else v + 1
  {
    (v + 1) % Limit(w)
  }

  /** `read_reg_uN`: the register truncated to the width (`as u8`, `as u16`, `as u32`). */
  function RegRead(w: Width, h: u64): (r: nat)
    ensures r < Limit(w)
    ensures r == h % Limit(w)
  {
    match w
    case W8 => Trunc8(h)
    case W16 => Trunc16(h)
    case W32 => Trunc32(h)
    case W64 => h
  }

  /**
   * `write_reg_uN`. The 8-bit write is `h ^= (h & 0xFF) ^ value`; the 16-bit
   * write is the same expression, with the same 0xFF mask. The 32-bit write
   * stores the value zero-extended and the 64-bit write stores it.
   */
  function RegWrite(w: Width, h: u64, v: nat): u64
    requires v < Limit(w)
  {
    match w
    case W8 => Xor64(h, Xor64(And64(h, 0xFF), v))
    case W16 => Xor64(h, Xor64(And64(h, 0xFF), v))
    case W32 => v
    case W64 => v
  }

  /**
   * An 8-bit write replaces the low byte and keeps bits 8..63; 32- and 64-bit
   * writes replace the whole register (the 32-bit one clears the upper half).
   * Reading back at the same width gives the value written.
   */
  lemma RegWriteRead(w: Width, h: u64, v: nat)
    requires v < Limit(w) && w != W16
    ensures RegRead(w, RegWrite(w, h, v)) == v
    ensures w == W8 ==> RegWrite(w, h, v) == h - h % 0x100 + v
    ensures w == W32 ==> RegWrite(w, h, v) < 0x1_0000_0000
  {
    if w == W8 {
      Pow2Of8();
      MergeLowBits(h, v, 8);
      DivModUnique(h - h % 0x100 + v, 0x100, h / 0x100, v);
    }
  }

  /** The 16-bit write keeps the low byte's merge but XORs bits 8..15 in: writing 0x100 over 0x100 leaves 0. */
  lemma RegWrite16Merges(h: u64, v: nat)
    requires h == 0x100 && v == 0x100
    ensures RegRead(W16, RegWrite(W16, h, v)) == 0
  {
    Pow2Of8();
    AndLowMask(h, 8);
    ZeroXor(v);
    XorSelf(h);
  }

  /**
   * The 16-bit write in general: the low byte becomes the value's low byte,
   * bits 8..15 become the old bits 8..15 XOR the value's high byte, and bits
   * 16..63 are kept. So it reads back as the value written exactly when the
   * old bits 8..15 were zero.
   */
  lemma RegWrite16Merge(h: u64, v: nat)
    requires v < 0x1_0000
    ensures RegWrite(W16, h, v) % 0x100 == v % 0x100
    ensures (RegWrite(W16, h, v) / 0x100) % 0x100 == BitXor((h / 0x100) % 0x100, v / 0x100)
    ensures RegWrite(W16, h, v) / 0x1_0000 == h / 0x1_0000
    ensures RegRead(W16, RegWrite(W16, h, v)) == v <==> (h / 0x100) % 0x100 == 0
  {
    var low, high := v % 0x100, v / 0x100;
    var m, top := (h / 0x100) % 0x100, h / 0x1_0000;
    Pow2Of8();
    AndLowMask(h, 8);
    InnerXor(h % 0x100, v);
    OuterXor(h, high, low);
    ByteXor(h / 0x100, high);
    ModSplit(h, 0x100, 0x100);
    var merged := BitXor(m, high);
    var r := RegWrite(W16, h, v);
    assert r == (top * 0x100 + merged) * 0x100 + low;
    DivModUnique(r, 0x100, top * 0x100 + merged, low);
    DivModUnique(top * 0x100 + merged, 0x100, top, merged);
    DivModUnique(r, 0x1_0000, top, merged * 0x100 + low);
    if merged == high {
      XorCancel(m, high);
      XorSelf(high);
    } else if m == 0 {
      ZeroXor(high);
    }
  }

  /** Register `r` after a write at width `w`. */
  function SetReg(c: CoreState, r: Selector, w: Width, v: nat): (c': CoreState)
    requires |c.regs| == 16 && v < Limit(w)
    ensures Fit(c) ==> Fit(c')
  {
    c.(regs := c.regs[r := RegWrite(w, c.regs[r], v)])
  }

  // ---- Operand addresses ----

  /** The rip a rip-relative operand starts from: truncated to 16 bits under an address-size override. */
  function RipBase(rip: u64, addressOverride: bool): u64 {
    if addressOverride then And64(rip, 0xFFFF) else rip
  }

  /**
   * The address of a memory operand: `rip + displacement` (with the rip of
   * the instruction's first byte), or `base + (index << scale) +
   * displacement` where base 0xFF and index 4 stand for none; all additions
   * wrap, and an address-size override keeps the low 16 bits.
   */
  function OperandAddress(regs: seq<u64>, rip: u64, rm: RM): u64
    requires |regs| == 16 && !rm.Reg?
  {
    match rm
    case RipRel(displacement, ao) => Wrap(RipBase(rip, ao) + displacement)
    case Mem(index, scale, base, displacement, ao, _) =>
      var b := if base == NO_BASE then 0 else regs[base];
      var i := if index == NO_INDEX then 0 else regs[index];
      var address := Wrap(Wrap(b + Shl64(i, scale)) + displacement);
      if ao then And64(address, 0xFFFF) else address
  }

  /** An address-size override keeps a base/index operand address below 0x10000: the address modulo 2^16. */
  lemma MemOverride(regs: seq<u64>, rip: u64, index: Selector, scale: Scale, base: BaseSelector, displacement: u32,
                    seg: SegmentOverride)
    requires |regs| == 16
    ensures OperandAddress(regs, rip, Mem(index, scale, base, displacement, true, seg)) < 0x1_0000
    ensures OperandAddress(regs, rip, Mem(index, scale, base, displacement, true, seg)) ==
      OperandAddress(regs, rip, Mem(index, scale, base, displacement, false, seg)) % 0x1_0000
  {
    Pow2Of16();
    AndLowMask(OperandAddress(regs, rip, Mem(index, scale, base, displacement, false, seg)), 16);
  }

  /**
   * For a rip-relative operand the override truncates only rip, before the
   * displacement is added, so the address can lie above 0x10000.
   */
  lemma RipRelOverride(regs: seq<u64>, rip: u64, displacement: u32)
    requires |regs| == 16
    ensures OperandAddress(regs, rip, RipRel(displacement, true)) == rip % 0x1_0000 + displacement
  {
    Pow2Of16();
    AndLowMask(rip, 16);
  }

  /** The value read from memory at `va`: `read_u8` .. `read_u64`. */
  function ReadMem(c: CoreState, va: u64, w: Width): (r: Result<nat>)
    requires Fit(c)
    ensures r.Ok? <==> VirtReadBytes(c.regions, c.root, va, Bytes(w)).Ok?
    ensures r.Ok? ==> r.value < Limit(w) && ToLe(r.value, Bytes(w)) == VirtReadBytes(c.regions, c.root, va, Bytes(w)).value
  {
    VirtReadNValue(c.regions, c.root, va, Bytes(w));
    VirtReadN(c.regions, c.root, va, Bytes(w))
  }

  /** The memory after writing `v` at `va`: `write_u8` .. `write_u64`, keeping the bytes written before a fault. */
  function WriteMem(c: CoreState, va: u64, w: Width, v: nat): (r: (CoreState, Result<()>))
    requires Fit(c)
    ensures Fit(r.0) && r.0 == c.(regions := r.0.regions)
  {
    var (regions, result) := WriteFrom(c.regions, c.root, va, ToLe(v, Bytes(w)), 0);
    (c.(regions := regions), result)
  }

  /** `read_rm_uN`. */
  function ReadRm(c: CoreState, rm: RM, w: Width): (r: Result<nat>)
    requires Fit(c)
    ensures r.Ok? ==> r.value < Limit(w)
    ensures rm.Reg? ==> r == Ok(RegRead(w, c.regs[rm.reg]))
  {
    match rm
    case Reg(reg) => Ok(RegRead(w, c.regs[reg]))
    case _ => ReadMem(c, OperandAddress(c.regs, c.rip, rm), w)
  }

  /** `write_rm_uN`. */
  function WriteRm(c: CoreState, rm: RM, w: Width, v: nat): (r: (CoreState, Result<()>))
    requires Fit(c) && v < Limit(w)
    ensures Fit(r.0)
    ensures rm.Reg? ==> r == (SetReg(c, rm.reg, w, v), Ok(()))
    ensures !rm.Reg? ==> r.0 == c.(regions := r.0.regions)
  {
    match rm
    case Reg(reg) => (SetReg(c, reg, w, v), Ok(()))
    case _ => WriteMem(c, OperandAddress(c.regs, c.rip, rm), w, v)
  }

  // ---- Executing one instruction ----

  /**
   * How an instruction ends: rip moves past it, rip stays where the
   * instruction put it (`iret`), a fault is raised, or the simulator stops
   * (`fatal`).
   */
  datatype Status = Advance | Stay | Raise(fault: Interrupt) | Halt

  datatype Outcome = Outcome(core: CoreState, devices: seq<Device>, status: Status)

  /** The in/out instructions fault with a general protection fault above privilege level 0, changing nothing. */
  function Privileged(c: CoreState, devices: seq<Device>, body: Outcome): Outcome {
    if c.cpl > 0 then Outcome(c, devices, Raise(GeneralProtection)) else body
  }

  /** `in_u8(port)` stored in the low byte of the accumulator. */
  function InByte(c: CoreState, devices: seq<Device>, ports: map<u16, (nat, u16)>, port: u16): Outcome
    requires Fit(c) && Routed(devices, ports)
  {
    var (devices', value) := PortIn(devices, ports, port);
    Outcome(SetReg(c, A, W8, value), devices', Advance)
  }

  /** The outcome of a memory access that faulted: the state so far, and the fault. */
  function Fault(c: CoreState, devices: seq<Device>, r: Result<()>): Outcome {
    Outcome(c, devices, if r.Err? then Raise(r.fault) else Advance)
  }

  /** `inc r/m`: read, add one wrapping at the width, write back. */
  function Increment(c: CoreState, devices: seq<Device>, rm: RM, w: Width): Outcome
    requires Fit(c)
  {
    match ReadRm(c, rm, w)
    case Err(f) => Outcome(c, devices, Raise(f))
    case Ok(v) => Store(c, devices, rm, w, WrappingInc(w, v))
  }

  /** `mov reg, r/m`. */
  function LoadReg(c: CoreState, devices: seq<Device>, reg: Selector, rm: RM, w: Width): Outcome
    requires Fit(c)
  {
    match ReadRm(c, rm, w)
    case Err(f) => Outcome(c, devices, Raise(f))
    case Ok(v) => Outcome(SetReg(c, reg, w, v), devices, Advance)
  }

  /** A write of `v` to the operand, a fault from the memory unit raised. */
  function Store(c: CoreState, devices: seq<Device>, rm: RM, w: Width, v: nat): Outcome
    requires Fit(c) && v < Limit(w)
  {
    var (c', r) := WriteRm(c, rm, w, v);
    Fault(c', devices, r)
  }

  /** `mov r/m, reg`. */
  function StoreReg(c: CoreState, devices: seq<Device>, rm: RM, reg: Selector, w: Width): Outcome
    requires Fit(c)
  {
    Store(c, devices, rm, w, RegRead(w, c.regs[reg]))
  }

  /** The three words `iret` reads above rsp: rip at rsp + 8, the flags at rsp + 16, rsp at rsp + 24. */
  function ReturnFrame(c: CoreState): Result<(u64, u64, u64)>
    requires Fit(c)
  {
    var rsp: int := c.regs[SP];
    match ReadMem(c, Wrap(rsp + 8), W64)
    case Err(f) => Err(f)
    case Ok(ip) =>
      match ReadMem(c, Wrap(rsp + 16), W64)
      case Err(f) => Err(f)
      case Ok(flags) =>
        match ReadMem(c, Wrap(rsp + 24), W64)
        case Err(f) => Err(f)
        case Ok(sp) => Ok((ip, flags, sp))
  }

  /**
   * `iret`: rip, the flags (all 64 bits) and rsp from the frame, and the
   * privilege level from bits 32..39 of the flags; rip is not advanced.
   */
  function Return(c: CoreState, devices: seq<Device>): Outcome
    requires Fit(c)
  {
    match ReturnFrame(c)
    case Err(f) => Outcome(c, devices, Raise(f))
    case Ok((ip, flags, sp)) =>
      Outcome(c.(rip := ip, rflags := flags, regs := c.regs[SP := sp], cpl := CplOf(flags)), devices, Stay)
  }

  /** `rsp.wrapping_sub(n)`. */
  function StackBelow(rsp: u64, n: nat): u64 { Wrap(rsp - n) }

  /** `rsp.wrapping_add(n)`. */
  function StackAbove(rsp: u64, n: nat): u64 { Wrap(rsp + n) }

  /** `pop reg`: read at rsp, then rsp + 2 (for both widths), then the register write. */
  function Pop(c: CoreState, devices: seq<Device>, reg: Selector, w: Width): Outcome
    requires Fit(c)
  {
    var rsp := c.regs[SP];
    match ReadMem(c, rsp, w)
    case Err(f) => Outcome(c, devices, Raise(f))
    case Ok(v) => Outcome(SetReg(c.(regs := c.regs[SP := StackAbove(rsp, 2)]), reg, w, v), devices, Advance)
  }

  /** `push reg`: rsp moves down by the width first, then the write, so a fault leaves rsp moved. */
  function Push(c: CoreState, devices: seq<Device>, reg: Selector, w: Width): Outcome
    requires Fit(c)
  {
    var v := RegRead(w, c.regs[reg]);
    var top := StackBelow(c.regs[SP], Bytes(w));
    var (c', r) := WriteMem(c.(regs := c.regs[SP := top]), top, w, v);
    Fault(c', devices, r)
  }

  /** `swi4`: the 64-bit operand becomes the page-table root. */
  function SwitchRoot(c: CoreState, devices: seq<Device>, rm: RM): Outcome
    requires Fit(c)
  {
    match ReadRm(c, rm, W64)
    case Err(f) => Outcome(c, devices, Raise(f))
    case Ok(v) => Outcome(c.(root := v), devices, Advance)
  }

  /** `wrcr`: the operand is read (and reported); nothing else changes. */
  function WriteConfig(c: CoreState, devices: seq<Device>, rm: RM): Outcome
    requires Fit(c)
  {
    match ReadRm(c, rm, W64)
    case Err(f) => Outcome(c, devices, Raise(f))
    case Ok(_) => Outcome(c, devices, Advance)
  }

  /** The port instructions, which need privilege level 0 or below. */
  predicate IsPortIo(i: Instruction) {
    i.In8? || i.In16? || i.In32? || i.In8D? || i.In16D? || i.In32D? || i.Out8? || i.Out16? || i.Out32?
  }

  predicate IsMove(i: Instruction) {
    i.MovReg8Imm? || i.MovReg16Imm? || i.MovReg32Imm? || i.MovReg64Imm? ||
    i.MovReg8RM? || i.MovReg16RM? || i.MovReg32RM? || i.MovReg64RM? ||
    i.MovRM8Reg? || i.MovRM16Reg? || i.MovRM32Reg? || i.MovRM64Reg?
  }

  /** The outcome of port writes: the devices they left, and a halt when a device stopped the simulator. */
  function Written(c: CoreState, sent: Sent): Outcome {
    Outcome(c, sent.devices, if sent.halted then Halt else Advance)
  }

  /** `in` and `out`: only the 8-bit forms and `out` of 32 bits reach a device; the others stop the simulator. */
  function PortIo(c: CoreState, devices: seq<Device>, ports: map<u16, (nat, u16)>, i: Instruction): Outcome
    requires Fit(c) && Routed(devices, ports) && IsPortIo(i)
  {
    match i
    case In8(imm) => InByte(c, devices, ports, Trunc16(imm))
    case In8D => InByte(c, devices, ports, RegRead(W16, c.regs[2]))
    case Out8(imm) => Written(c, PortOut(devices, ports, Trunc16(imm), RegRead(W8, c.regs[A])))
    case Out32(imm) => Written(c, PortOutBytes(devices, ports, Trunc16(imm), ToLe(RegRead(W32, c.regs[A]), 4), 4))
    case _ => Outcome(c, devices, Halt)
  }

  /** The `mov` forms: an immediate truncated to the width, a load, or a store. */
  function Move(c: CoreState, devices: seq<Device>, i: Instruction): Outcome
    requires Fit(c) && IsMove(i)
  {
    match i
    case MovReg8Imm(reg, imm) => Outcome(SetReg(c, reg, W8, Trunc8(imm)), devices, Advance)
    case MovReg16Imm(reg, imm) => Outcome(SetReg(c, reg, W16, Trunc16(imm)), devices, Advance)
    case MovReg32Imm(reg, imm) => Outcome(SetReg(c, reg, W32, Trunc32(imm)), devices, Advance)
    case MovReg64Imm(reg, imm) => Outcome(SetReg(c, reg, W64, imm), devices, Advance)
    case MovReg8RM(reg, rm) => LoadReg(c, devices, reg, rm, W8)
    case MovReg16RM(reg, rm) => LoadReg(c, devices, reg, rm, W16)
    case MovReg32RM(reg, rm) => LoadReg(c, devices, reg, rm, W32)
    case MovReg64RM(reg, rm) => LoadReg(c, devices, reg, rm, W64)
    case MovRM8Reg(rm, reg) => StoreReg(c, devices, rm, reg, W8)
    case MovRM16Reg(rm, reg) => StoreReg(c, devices, rm, reg, W16)
    case MovRM32Reg(rm, reg) => StoreReg(c, devices, rm, reg, W32)
    case MovRM64Reg(rm, reg) => StoreReg(c, devices, rm, reg, W64)
  }

  /** `jmp rel8` / `jmp rel32`: the sign-extended offset is added to rip (and the size after). */
  function Jump(c: CoreState, devices: seq<Device>, offset: u64): Outcome {
    Outcome(c.(rip := Wrap(c.rip + offset)), devices, Advance)
  }

  /** The rest: `inc`, `iret`, `jmp`, `pop`, `push`, `swi4` and `wrcr`. */
  function Control(c: CoreState, devices: seq<Device>, i: Instruction): Outcome
    requires Fit(c) && !IsPortIo(i) && !IsMove(i)
  {
    match i
    case IncRM8(rm) => Increment(c, devices, rm, W8)
    case IncRM16(rm) => Increment(c, devices, rm, W16)
    case IncRM32(rm) => Increment(c, devices, rm, W32)
    case IncRM64(rm) => Increment(c, devices, rm, W64)
    case Iret => Return(c, devices)
    case JmpRel8(imm) => Jump(c, devices, SignExtend8(Trunc8(imm)))
    case JmpRel32(imm) => Jump(c, devices, SignExtend32(Trunc32(imm)))
    case PopReg16(reg) => Pop(c, devices, reg, W16)
    case PopReg64(reg) => Pop(c, devices, reg, W64)
    case PushReg16(reg) => Push(c, devices, reg, W16)
    case PushReg64(reg) => Push(c, devices, reg, W64)
    case Swi4(rm) => SwitchRoot(c, devices, rm)
    case Wrcr(_, rm) => WriteConfig(c, devices, rm)
  }

  /** The `match instruction` of `step_instruction`, before rip is advanced. */
  function Execute(c: CoreState, devices: seq<Device>, ports: map<u16, (nat, u16)>, i: Instruction): (o: Outcome)
    requires Fit(c) && Routed(devices, ports)
    ensures Fit(o.core) && |o.devices| == |devices|
  {
    if IsPortIo(i) then Privileged(c, devices, PortIo(c, devices, ports, i))
    else if IsMove(i) then Move(c, devices, i)
    else Control(c, devices, i)
  }

  // ---- One step ----

  /** The processor, its devices, and the pending IRQ line (0 for none). */
  datatype Machine = Machine(core: CoreState, devices: seq<Device>, irq: u8)

  predicate Ready(m: Machine, ports: map<u16, (nat, u16)>) { Fit(m.core) && Routed(m.devices, ports) }

  /** The machine after `interrupt`, or `None` on a triple fault. */
  function Interrupted(c: CoreState, devices: seq<Device>, i: Interrupt): Option<Machine>
    requires Fit(c)
  {
    match Deliver(c, i)
    case None => None
    case Some(c') => Some(Machine(c', devices, 0))
  }

  /** After decoding: execute, then advance rip past the instruction or deliver the fault. */
  function Run(c: CoreState, devices: seq<Device>, ports: map<u16, (nat, u16)>, d: Result<Decoded>): (r: Option<Machine>)
    requires Fit(c) && Routed(devices, ports)
    ensures r.Some? ==> Ready(r.value, ports) && r.value.irq == 0
  {
    match d
    case Err(f) => Interrupted(c, devices, f)
    case Ok(Decoded(i, size)) => Conclude(Execute(c, devices, ports, i), size)
  }

  /** After executing an instruction of `size` bytes: advance rip past it, keep rip, deliver the fault, or halt. */
  function Conclude(o: Outcome, size: nat): Option<Machine>
    requires Fit(o.core)
  {
    match o.status
    case Advance => Some(Machine(o.core.(rip := Wrap(o.core.rip + size)), o.devices, 0))
    case Stay => Some(Machine(o.core, o.devices, 0))
    case Raise(f) => Interrupted(o.core, o.devices, f)
    case Halt => None
  }

  /**
   * `step_instruction`: the pending IRQ is taken and cleared; with none, the
   * instruction at rip is decoded and executed, rip moves past it unless it
   * set rip itself, and a fault from either goes to `interrupt` with the
   * state as the instruction left it. `None` is a stop (`fatal`).
   */
  function StepMachine(m: Machine, ports: map<u16, (nat, u16)>): (r: Option<Machine>)
    requires Ready(m, ports)
    ensures r.Some? ==> Ready(r.value, ports) && r.value.irq == 0
  {
    if m.irq != 0 then Interrupted(m.core, m.devices, Irq(m.irq))
    else Run(m.core, m.devices, ports, Decode(m.core.regions, m.core.root, m.core.rip))
  }

  // ---- The processor as an object ----

  /**
   * `ProcessorState`: the processor core (registers, memory unit, privilege
   * level, interrupt table, rip, flags), the port devices, and the pending
   * IRQ line, which the source keeps in a global atomic.
   */
  class ProcessorState {
    const core: Core
    const devices: PortDevices
    var irq: u8

    ghost predicate Valid()
      reads this, core, core.mmu, core.mmu.physical, devices
    {
      core.Valid() && devices.Valid()
    }

    function Snapshot(): Machine
      reads this, core, core.regs, core.mmu, core.mmu.physical, devices
    {
      Machine(core.State(), devices.devices, irq)
    }

    /** The core and devices after an instruction, with how it ended. */
    function After(status: Status): Outcome
      reads core, core.regs, core.mmu, core.mmu.physical, devices
    {
      Outcome(core.State(), devices.devices, status)
    }

    /** `ProcessorState::new`: registers, level, interrupt stack, table, rip and flags all zero. */
    constructor(mmu: MemoryManagementUnit, devices: PortDevices)
      requires mmu.Valid() && devices.Valid()
      ensures Valid() && this.devices == devices && core.mmu == mmu && fresh(core) && fresh(core.regs)
      ensures Snapshot() ==
        Machine(CoreState(seq(16, _ => 0), 0, 0, 0, 0, 0, 0, mmu.physical.regions, mmu.pagingTableAddress), devices.devices, 0)
    {
      core := new Core(mmu);
      this.devices := devices;
      irq := 0;
    }

    /** `schedule_interrupt`: the line is taken at the start of the next step. */
    method ScheduleInterrupt(line: u8)
      modifies this
      ensures irq == line
    {
      irq := line;
    }

    /** `step_instruction`. `halted` is a stop: a triple fault or `fatal`. */
    method StepInstruction() returns (halted: bool)
      requires Valid()
      modifies this, core, core.regs, core.mmu, core.mmu.physical, devices
      ensures Valid() && devices.ports == old(devices.ports)
      ensures halted <==> StepMachine(old(Snapshot()), devices.ports).None?
      ensures !halted ==> Snapshot() == StepMachine(old(Snapshot()), devices.ports).value
    {
      var line := irq;
      irq := 0;
      if line != 0 {
        halted := InterruptMachine(Irq(line));
        return;
      }
      var d := Decode(core.mmu.physical.regions, core.mmu.pagingTableAddress, core.rip);
      halted := RunDecoded(d);
    }

    /** `interrupt`, with no IRQ left pending. */
    method InterruptMachine(i: Interrupt) returns (halted: bool)
      requires Valid() && irq == 0
      modifies core, core.regs, core.mmu.physical
      ensures Valid()
      ensures halted <==> Interrupted(old(core.State()), devices.devices, i).None?
      ensures !halted ==> Snapshot() == Interrupted(old(core.State()), devices.devices, i).value
    {
      halted := core.Interrupt(i);
    }

    /** The part of `step_instruction` after decoding. */
    method RunDecoded(d: Result<Decoded>) returns (halted: bool)
      requires Valid() && irq == 0
      modifies core, core.regs, core.mmu, core.mmu.physical, devices
      ensures Valid() && devices.ports == old(devices.ports)
      ensures halted <==> Run(old(core.State()), old(devices.devices), devices.ports, d).None?
      ensures !halted ==> Snapshot() == Run(old(core.State()), old(devices.devices), devices.ports, d).value
    {
      if d.Err? {
        halted := InterruptMachine(d.fault);
        return;
      }
      var status := ExecuteInstruction(d.value.instruction);
      halted := Finish(status, d.value.size);
    }

    /** The part of `step_instruction` after executing an instruction of `size` bytes. */
    method Finish(status: Status, size: nat) returns (halted: bool)
      requires Valid() && irq == 0
      modifies core, core.regs, core.mmu.physical
      ensures Valid()
      ensures halted <==> Conclude(old(After(status)), size).None?
      ensures !halted ==> Snapshot() == Conclude(old(After(status)), size).value
    {
      match status
      case Advance =>
        core.rip := Wrap(core.rip + size);
        halted := false;
      case Stay =>
        halted := false;
      case Raise(f) =>
        halted := InterruptMachine(f);
      case Halt =>
        halted := true;
    }

    /** The `match instruction` of `step_instruction`. */
    method ExecuteInstruction(i: Instruction) returns (status: Status)
      requires Valid()
      modifies core, core.regs, core.mmu, core.mmu.physical, devices
      ensures Valid() && devices.ports == old(devices.ports)
      ensures After(status) == Execute(old(core.State()), old(devices.devices), devices.ports, i)
    {
      if IsPortIo(i) {
        if core.cpl > 0 {
          return Raise(GeneralProtection);
        }
        status := PortInstruction(i);
      } else if IsMove(i) {
        status := MoveInstruction(i);
      } else {
        status := ControlInstruction(i);
      }
    }

    method PortInstruction(i: Instruction) returns (status: Status)
      requires Valid() && IsPortIo(i)
      modifies core.regs, devices
      ensures Valid() && devices.ports == old(devices.ports)
      ensures After(status) == PortIo(old(core.State()), old(devices.devices), devices.ports, i)
    {
      match i
      case In8(imm) => status := InputByte(Trunc16(imm));
      case In8D => status := InputByte(RegRead(W16, core.regs[2]));
      case Out8(imm) =>
        var halted := devices.OutU8(Trunc16(imm), RegRead(W8, core.regs[A]));
        status := if halted then Halt else Advance;
      case Out32(imm) =>
        var halted := devices.OutU32(Trunc16(imm), RegRead(W32, core.regs[A]));
        status := if halted then Halt else Advance;
      case _ => status := Halt;
    }

    method MoveInstruction(i: Instruction) returns (status: Status)
      requires Valid() && IsMove(i)
      modifies core.regs, core.mmu.physical
      ensures Valid()
      ensures After(status) == Move(old(core.State()), devices.devices, i)
    {
      match i
      case MovReg8Imm(reg, imm) => WriteReg(reg, W8, Trunc8(imm)); status := Advance;
      case MovReg16Imm(reg, imm) => WriteReg(reg, W16, Trunc16(imm)); status := Advance;
      case MovReg32Imm(reg, imm) => WriteReg(reg, W32, Trunc32(imm)); status := Advance;
      case MovReg64Imm(reg, imm) => WriteReg(reg, W64, imm); status := Advance;
      case MovReg8RM(reg, rm) => status := LoadRegister(reg, rm, W8);
      case MovReg16RM(reg, rm) => status := LoadRegister(reg, rm, W16);
      case MovReg32RM(reg, rm) => status := LoadRegister(reg, rm, W32);
      case MovReg64RM(reg, rm) => status := LoadRegister(reg, rm, W64);
      case MovRM8Reg(rm, reg) => status := StoreRegister(rm, reg, W8);
      case MovRM16Reg(rm, reg) => status := StoreRegister(rm, reg, W16);
      case MovRM32Reg(rm, reg) => status := StoreRegister(rm, reg, W32);
      case MovRM64Reg(rm, reg) => status := StoreRegister(rm, reg, W64);
    }

    method ControlInstruction(i: Instruction) returns (status: Status)
      requires Valid() && !IsPortIo(i) && !IsMove(i)
      modifies core, core.regs, core.mmu, core.mmu.physical
      ensures Valid()
      ensures After(status) == Control(old(core.State()), devices.devices, i)
    {
      match i
      case IncRM8(rm) => status := IncrementRm(rm, W8);
      case IncRM16(rm) => status := IncrementRm(rm, W16);
      case IncRM32(rm) => status := IncrementRm(rm, W32);
      case IncRM64(rm) => status := IncrementRm(rm, W64);
      case Iret => status := InterruptReturn();
      case JmpRel8(imm) => status := JumpBy(SignExtend8(Trunc8(imm)));
      case JmpRel32(imm) => status := JumpBy(SignExtend32(Trunc32(imm)));
      case PopReg16(reg) => status := PopRegister(reg, W16);
      case PopReg64(reg) => status := PopRegister(reg, W64);
      case PushReg16(reg) => status := PushRegister(reg, W16);
      case PushReg64(reg) => status := PushRegister(reg, W64);
      case Swi4(rm) => status := SwitchRootOperand(rm);
      case Wrcr(_, rm) => status := WriteConfigOperand(rm);
    }

    method JumpBy(offset: u64) returns (status: Status)
      requires Valid()
      modifies core
      ensures Valid()
      ensures After(status) == Jump(old(core.State()), devices.devices, offset)
    {
      core.rip := Wrap(core.rip + offset);
      status := Advance;
    }

    /** `wrcr`: the operand is read (and only shown), so only its fault matters. */
    method WriteConfigOperand(rm: RM) returns (status: Status)
      requires Valid()
      ensures After(status) == WriteConfig(core.State(), devices.devices, rm)
    {
      var v := ReadOperand(rm, W64);
      status := if v.Err? then Raise(v.fault) else Advance;
    }

    /** `swi4`: the operand becomes the memory unit's page-table root. */
    method SwitchRootOperand(rm: RM) returns (status: Status)
      requires Valid()
      modifies core.mmu
      ensures Valid()
      ensures After(status) == SwitchRoot(old(core.State()), devices.devices, rm)
    {
      var v := ReadOperand(rm, W64);
      if v.Err? {
        return Raise(v.fault);
      }
      core.mmu.Swi4(v.value);
      status := Advance;
    }

    /** `write_reg_uN`. */
    method WriteReg(r: Selector, w: Width, v: nat)
      requires Valid() && v < Limit(w)
      modifies core.regs
      ensures Valid()
      ensures core.State() == SetReg(old(core.State()), r, w, v)
    {
      core.regs[r] := RegWrite(w, core.regs[r], v);
    }

    /** `read_rm_uN`: memory reads change nothing. */
    method ReadOperand(rm: RM, w: Width) returns (r: Result<nat>)
      requires Valid()
      ensures r == ReadRm(core.State(), rm, w)
    {
      match rm
      case Reg(reg) => r := Ok(RegRead(w, core.regs[reg]));
      case _ => r := ReadMem(core.State(), OperandAddress(core.regs[..], core.rip, rm), w);
    }

    /** `write_u8` .. `write_u64` of the memory unit. */
    method WriteMemory(va: u64, w: Width, v: nat) returns (r: Result<()>)
      requires Valid() && v < Limit(w)
      modifies core.mmu.physical
      ensures Valid()
      ensures (core.State(), r) == WriteMem(old(core.State()), va, w, v)
    {
      match w
      case W8 =>
        r := core.mmu.WriteU8(va, v);
        WriteFromOne(old(core.mmu.physical.regions), core.mmu.pagingTableAddress, va, v);
      case W16 => r := core.mmu.WriteU16(va, v);
      case W32 => r := core.mmu.WriteU32(va, v);
      case W64 => r := core.mmu.WriteU64(va, v);
    }

    /** `write_rm_uN`. */
    method WriteOperand(rm: RM, w: Width, v: nat) returns (r: Result<()>)
      requires Valid() && v < Limit(w)
      modifies core.regs, core.mmu.physical
      ensures Valid()
      ensures (core.State(), r) == WriteRm(old(core.State()), rm, w, v)
    {
      match rm
      case Reg(reg) =>
        WriteReg(reg, w, v);
        r := Ok(());
      case _ =>
        r := WriteMemory(OperandAddress(core.regs[..], core.rip, rm), w, v);
    }

    method StoreOperand(rm: RM, w: Width, v: nat) returns (status: Status)
      requires Valid() && v < Limit(w)
      modifies core.regs, core.mmu.physical
      ensures Valid()
      ensures After(status) == Store(old(core.State()), devices.devices, rm, w, v)
    {
      var r := WriteOperand(rm, w, v);
      status := if r.Err? then Raise(r.fault) else Advance;
    }

    method InputByte(port: u16) returns (status: Status)
      requires Valid()
      modifies core.regs, devices
      ensures Valid() && devices.ports == old(devices.ports)
      ensures After(status) == InByte(old(core.State()), old(devices.devices), devices.ports, port)
    {
      var value := devices.InU8(port);
      WriteReg(A, W8, value);
      status := Advance;
    }

    method IncrementRm(rm: RM, w: Width) returns (status: Status)
      requires Valid()
      modifies core.regs, core.mmu.physical
      ensures Valid()
      ensures After(status) == Increment(old(core.State()), devices.devices, rm, w)
    {
      var v := ReadOperand(rm, w);
      if v.Err? {
        return Raise(v.fault);
      }
      status := StoreOperand(rm, w, WrappingInc(w, v.value));
    }

    method LoadRegister(reg: Selector, rm: RM, w: Width) returns (status: Status)
      requires Valid()
      modifies core.regs
      ensures Valid()
      ensures After(status) == LoadReg(old(core.State()), devices.devices, reg, rm, w)
    {
      var v := ReadOperand(rm, w);
      if v.Err? {
        return Raise(v.fault);
      }
      WriteReg(reg, w, v.value);
      status := Advance;
    }

    method StoreRegister(rm: RM, reg: Selector, w: Width) returns (status: Status)
      requires Valid()
      modifies core.regs, core.mmu.physical
      ensures Valid()
      ensures After(status) == StoreReg(old(core.State()), devices.devices, rm, reg, w)
    {
      status := StoreOperand(rm, w, RegRead(w, core.regs[reg]));
    }

    method InterruptReturn() returns (status: Status)
      requires Valid()
      modifies core, core.regs
      ensures Valid()
      ensures After(status) == Return(old(core.State()), devices.devices)
    {
      var frame := ReturnFrame(core.State());
      if frame.Err? {
        return Raise(frame.fault);
      }
      var (ip, flags, sp) := frame.value;
      core.rip := ip;
      core.rflags := flags;
      core.regs[SP] := sp;
      core.cpl := CplOf(flags);
      status := Stay;
    }

    method PopRegister(reg: Selector, w: Width) returns (status: Status)
      requires Valid()
      modifies core.regs
      ensures Valid()
      ensures After(status) == Pop(old(core.State()), devices.devices, reg, w)
    {
      var rsp := core.regs[SP];
      var v := ReadMem(core.State(), rsp, w);
      if v.Err? {
        return Raise(v.fault);
      }
      core.regs[SP] := StackAbove(rsp, 2);
      WriteReg(reg, w, v.value);
      status := Advance;
    }

    method PushRegister(reg: Selector, w: Width) returns (status: Status)
      requires Valid()
      modifies core.regs, core.mmu.physical
      ensures Valid()
      ensures After(status) == Push(old(core.State()), devices.devices, reg, w)
    {
      ghost var c := core.State();
      var v := RegRead(w, core.regs[reg]);
      var top := StackBelow(core.regs[SP], Bytes(w));
      core.regs[SP] := top;
      assert core.State() == c.(regs := c.regs[SP := top]);
      var r := WriteMemory(top, w, v);
      assert (core.State(), r) == WriteMem(c.(regs := c.regs[SP := top]), top, w, v);
      status := if r.Err? then Raise(r.fault) else Advance;
    }
  }
}
