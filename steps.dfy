// Properties of one `step_instruction` of the simulator that span several
// of its parts: the pending IRQ, the privilege gate of the port
// instructions, relative jumps, the register writes of `in` and `inc`, and
// the stack pointer after `push` then `pop`.

module StepProperties {
  import opened Bits
  import opened Interrupts
  import opened Physical
  import opened Paging
  import opened Decoder
  import opened Dispatch
  import opened Devices
  import opened Cpu
  import opened Simulator

  /**
   * A pending IRQ line `n` is taken before anything is fetched: the step is
   * the delivery of vector `n` with error code 0 and the line is cleared,
   * whatever the bytes at rip are.
   */
  lemma PendingIrqFirst(m: Machine, ports: map<u16, (nat, u16)>)
    requires Ready(m, ports) && m.irq != 0
    ensures StepMachine(m, ports).None? <==> Deliver(m.core, Irq(m.irq)).None?
    ensures EnterVector(m.core, m.irq, 0).Entered? ==>
      StepMachine(m, ports) == Some(Machine(EnterVector(m.core, m.irq, 0).core, m.devices, 0))
    ensures StepMachine(m, ports).Some? ==>
      StepMachine(m, ports).value.devices == m.devices && StepMachine(m, ports).value.core.cpl == 0
  {
  }

  /**
   * Above privilege level 0 a decoded `in` or `out` raises a general
   * protection fault on the state as it was: no device is touched, no
   * register written, and rip still points at the `in`/`out`.
   */
  lemma PortIoNeedsLevelZero(m: Machine, ports: map<u16, (nat, u16)>, i: Instruction, size: nat)
    requires Ready(m, ports) && m.irq == 0 && m.core.cpl > 0 && IsPortIo(i)
    requires Decode(m.core.regions, m.core.root, m.core.rip) == Ok(Decoded(i, size))
    ensures StepMachine(m, ports) == Interrupted(m.core, m.devices, GeneralProtection)
  {
    assert StepMachine(m, ports) == Run(m.core, m.devices, ports, Ok(Decoded(i, size)));
    PortIoRun(m.core, m.devices, ports, i, size);
  }

  lemma PortIoRun(c: CoreState, devices: seq<Device>, ports: map<u16, (nat, u16)>, i: Instruction, size: nat)
    requires Fit(c) && Routed(devices, ports) && c.cpl > 0 && IsPortIo(i)
    ensures Run(c, devices, ports, Ok(Decoded(i, size))) == Interrupted(c, devices, GeneralProtection)
  {
    assert Execute(c, devices, ports, i) == Outcome(c, devices, Raise(GeneralProtection));
  }

  /**
   * `out imm8, al` at level 0 to a port the map gives to a timer at a local
   * port above 4 reaches the timer's `unreachable!()`: the simulator stops.
   */
  lemma OutToHaltingPortStops(c: CoreState, devices: seq<Device>, ports: map<u16, (nat, u16)>, imm: u64, size: nat)
    requires Fit(c) && Routed(devices, ports) && c.cpl <= 0
    requires HaltingPort(devices, ports, Trunc16(imm))
    ensures Run(c, devices, ports, Ok(Decoded(Out8(imm), size))) == None
  {
    assert Execute(c, devices, ports, Out8(imm)).status == Halt;
  }

  /** After decoding, `jmp rel8` lands at rip + sign-extended displacement + the instruction's size, all wrapping. */
  lemma JumpRel8Target(c: CoreState, devices: seq<Device>, ports: map<u16, (nat, u16)>, imm: u64, size: nat)
    requires Fit(c) && Routed(devices, ports)
    ensures Run(c, devices, ports, Ok(Decoded(JmpRel8(imm), size))) ==
      Some(Machine(c.(rip := Wrap(c.rip as int + SignExtend8(Trunc8(imm)) + size)), devices, 0))
  {
    JumpRun(c, devices, ports, JmpRel8(imm), SignExtend8(Trunc8(imm)), size);
  }

  /** After decoding, `jmp rel32` lands at rip + sign-extended displacement + the instruction's size, all wrapping. */
  lemma JumpRel32Target(c: CoreState, devices: seq<Device>, ports: map<u16, (nat, u16)>, imm: u64, size: nat)
    requires Fit(c) && Routed(devices, ports)
    ensures Run(c, devices, ports, Ok(Decoded(JmpRel32(imm), size))) ==
      Some(Machine(c.(rip := Wrap(c.rip as int + SignExtend32(Trunc32(imm)) + size)), devices, 0))
  {
    JumpRun(c, devices, ports, JmpRel32(imm), SignExtend32(Trunc32(imm)), size);
  }

  lemma ExecuteControl(c: CoreState, devices: seq<Device>, ports: map<u16, (nat, u16)>, i: Instruction)
    requires Fit(c) && Routed(devices, ports) && !IsPortIo(i) && !IsMove(i)
    ensures Execute(c, devices, ports, i) == Control(c, devices, i)
  {
  }

  lemma JumpRun(c: CoreState, devices: seq<Device>, ports: map<u16, (nat, u16)>, i: Instruction, offset: u64, size: nat)
    requires Fit(c) && Routed(devices, ports) && (i.JmpRel8? || i.JmpRel32?)
    requires Control(c, devices, i) == Jump(c, devices, offset)
    ensures Run(c, devices, ports, Ok(Decoded(i, size))) == Some(Machine(c.(rip := Wrap(c.rip as int + offset + size)), devices, 0))
  {
    ExecuteControl(c, devices, ports, i);
    var o := Jump(c, devices, offset);
    assert Run(c, devices, ports, Ok(Decoded(i, size))) == Some(Machine(o.core.(rip := Wrap(o.core.rip as int + size)), devices, 0));
    WrapAdd(c.rip as int + offset, size);
  }

  /** `in al, port` replaces bits 0..7 of rax with the device's byte and keeps bits 8..63. */
  lemma InByteKeepsHighBits(c: CoreState, devices: seq<Device>, ports: map<u16, (nat, u16)>, port: u16)
    requires Fit(c) && Routed(devices, ports)
    ensures var o := InByte(c, devices, ports, port);
      o.core.regs[A] % 0x100 == PortIn(devices, ports, port).1 &&
      o.core.regs[A] / 0x100 == c.regs[A] / 0x100 &&
      o.devices == PortIn(devices, ports, port).0
    ensures forall r | 0 <= r < 16 && r != A :: InByte(c, devices, ports, port).core.regs[r] == c.regs[r]
  {
    var h := c.regs[A];
    var v := PortIn(devices, ports, port).1;
    RegWriteRead(W8, h, v);
    var h' := RegWrite(W8, h, v);
    assert h' == h - h % 0x100 + v;
    DivModUnique(h', 0x100, h / 0x100, v);
  }

  /**
   * `mov reg, imm` at 8, 32 and 64 bits: the register read back at the width
   * is the immediate truncated to it; the 32-bit form clears bits 32..63,
   * and the 64-bit form sets the whole register. The 16-bit form sets the
   * low byte and keeps bits 16..63 (bits 8..15 are merged, see
   * `Simulator.RegWrite16Merge`).
   */
  lemma MoveImmediate(c: CoreState, devices: seq<Device>, reg: Selector, imm: u64)
    requires Fit(c)
    ensures var o := Move(c, devices, MovReg8Imm(reg, imm));
      o.status == Advance && RegRead(W8, o.core.regs[reg]) == imm % 0x100
    ensures var o := Move(c, devices, MovReg16Imm(reg, imm));
      o.status == Advance && o.core.regs[reg] % 0x100 == imm % 0x100 &&
      o.core.regs[reg] / 0x1_0000 == c.regs[reg] / 0x1_0000
    ensures var o := Move(c, devices, MovReg32Imm(reg, imm));
      o.status == Advance && o.core.regs[reg] == imm % 0x1_0000_0000
    ensures var o := Move(c, devices, MovReg64Imm(reg, imm));
      o.status == Advance && o.core.regs[reg] == imm
  {
    RegWriteRead(W8, c.regs[reg], Trunc8(imm));
    RegWrite16Merge(c.regs[reg], Trunc16(imm));
    ModSplit(imm, 0x100, 0x100);
    RegWriteRead(W32, c.regs[reg], Trunc32(imm));
  }

  /** `inc` on a register of width `w` leaves the old value plus one, wrapped to the width. */
  lemma IncrementRegister(c: CoreState, devices: seq<Device>, reg: Selector, w: Width)
    requires Fit(c) && w != W16
    ensures var o := Increment(c, devices, Reg(reg), w);
      o.status == Advance &&
      RegRead(w, o.core.regs[reg]) == (RegRead(w, c.regs[reg]) + 1) % Limit(w)
  {
    var v := RegRead(w, c.regs[reg]);
    RegWriteRead(w, c.regs[reg], WrappingInc(w, v));
  }

  /** `push` moves rsp down by the width whether or not the write faults, and changes no other register. */
  lemma PushMovesStack(c: CoreState, devices: seq<Device>, reg: Selector, w: Width)
    requires Fit(c)
    ensures Push(c, devices, reg, w).core.regs == c.regs[SP := StackBelow(c.regs[SP], Bytes(w))]
    ensures Push(c, devices, reg, w).devices == devices
  {
  }

  /** A `pop` that reads its value moves rsp up by 2, at either width, before the register write. */
  lemma PopMovesStack(c: CoreState, devices: seq<Device>, reg: Selector, w: Width)
    requires Fit(c) && reg != SP && Pop(c, devices, reg, w).status == Advance
    ensures Pop(c, devices, reg, w).core.regs[SP] == StackAbove(c.regs[SP], 2)
  {
  }

  lemma StackDrift(rsp: u64)
    ensures StackAbove(StackBelow(rsp, 8), 2) == StackBelow(rsp, 6)
  {
    WrapAdd(rsp as int - 8, 2);
  }

  /**
   * `push` then `pop` of 64-bit registers moves rsp down by 8 and back up by
   * only 2, so the pair leaves rsp 6 below where it started.
   */
  lemma PushPopDrift(c: CoreState, devices: seq<Device>, pushed: Selector, popped: Selector)
    requires Fit(c) && popped != SP
    requires Pop(Push(c, devices, pushed, W64).core, devices, popped, W64).status == Advance
    ensures Pop(Push(c, devices, pushed, W64).core, devices, popped, W64).core.regs[SP] == StackBelow(c.regs[SP], 6)
  {
    PushMovesStack(c, devices, pushed, W64);
    PopMovesStack(Push(c, devices, pushed, W64).core, devices, popped, W64);
    StackDrift(c.regs[SP]);
  }
}
