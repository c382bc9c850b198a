/**
 * The older tree's `ProcessorState`: `read_rm` and `write_rm` with their
 * byte-mask loop and their four addressing modes, and `step_instruction`,
 * which decodes with the older decoder, executes, advances rip and hands a
 * fault to `interrupt` (shared with the simulator, without IRQs).
 *
 * The port devices of the older tree are not part of this model: the byte
 * an `in` reads is an input of the step, and the step reports which port it
 * read or what it wrote to which port.
 */
module LegacyState {
  import opened Bits
  import opened Interrupts
  import opened Physical
  import opened Paging
  import opened Cpu
  import opened LegacyDecode
  import Decoder
  import Simulator

  // ---- The register mask ----

  /** The low `bytes` bytes set: the mask `read_rm` and `write_rm` build for a register operand. */
  function Mask(bytes: nat): u64
    requires bytes <= 8
  {
    Decoder.Pow256Mono(bytes, 8);
    Pow256Table();
    Pow256(bytes) - 1
  }

  /** The `for i in 0..bytes` loop ORing `0xFF << (8 * i)` into the mask. */
  method MaskOf(bytes: nat) returns (mask: u64)
    requires bytes <= 8
    ensures mask == Mask(bytes)
  {
    mask := 0;
    for i := 0 to bytes
      invariant mask + 1 == Pow256(i)
    {
      OrLane(mask, 0xFF, i);
      mask := Or64(mask, Shl64(0xFF, 8 * i));
    }
  }

  lemma MaskIsLow(h: u64, bytes: nat)
    requires bytes <= 8
    ensures And64(h, Mask(bytes)) == h % Pow256(bytes)
  {
    Pow256IsPow2(bytes);
    AndWith(h, Mask(bytes), 8 * bytes, Pow256(bytes));
  }

  lemma AndWith(h: u64, m: u64, k: nat, p: nat)
    requires k <= 64 && p == Pow2(k) && m == p - 1
    ensures And64(h, m) == h % p
  {
    AndLowMask(h, k);
  }

  /** A register read through `read_rm`: `reg & mask`, the low `bytes` bytes. */
  function RegisterRead(h: u64, bytes: nat): (r: u64)
    requires bytes <= 8
    ensures r == h % Pow256(bytes)
  {
    MaskIsLow(h, bytes);
    And64(h, Mask(bytes))
  }

  /**
   * A register write through `write_rm`: `reg ^= (reg & mask) ^ (value & mask)`,
   * which replaces the low `bytes` bytes by those of the value and keeps the rest.
   */
  function RegisterWrite(h: u64, value: u64, bytes: nat): (r: u64)
    requires bytes <= 8
    ensures r == h - h % Pow256(bytes) + value % Pow256(bytes)
  {
    MergeBytes(h, value, bytes);
    Xor64(h, Xor64(And64(h, Mask(bytes)), And64(value, Mask(bytes))))
  }

  lemma MergeBytes(h: u64, value: u64, bytes: nat)
    requires bytes <= 8
    ensures Xor64(h, Xor64(And64(h, Mask(bytes)), And64(value, Mask(bytes)))) ==
      h - h % Pow256(bytes) + value % Pow256(bytes)
  {
    Pow256IsPow2(bytes);
    MergeWith(h, value, Mask(bytes), 8 * bytes, Pow256(bytes));
  }

  lemma MergeWith(h: u64, value: u64, m: u64, k: nat, p: nat)
    requires k <= 64 && p == Pow2(k) && m == p - 1
    ensures Xor64(h, Xor64(And64(h, m), And64(value, m))) == h - h % p + value % p
  {
    AndLowMask(value, k);
    MergeLowBits(h, value % p, k);
  }

  /**
   * Reading a register back at the width it was written gives the low bytes
   * of the value written, and the bytes above the width are the old ones.
   */
  lemma RegisterWriteRead(h: u64, value: u64, bytes: nat)
    requires bytes <= 8
    ensures RegisterRead(RegisterWrite(h, value, bytes), bytes) == value % Pow256(bytes)
    ensures RegisterWrite(h, value, bytes) / Pow256(bytes) == h / Pow256(bytes)
  {
    KeepHigh(h, value, Pow256(bytes));
  }

  lemma KeepHigh(h: nat, v: nat, p: nat)
    requires p >= 1
    ensures (h - h % p + v % p) % p == v % p && (h - h % p + v % p) / p == h / p
  {
    DivModUnique(h - h % p + v % p, p, h / p, v % p);
  }

  // ---- Operands ----

  /** The register indices an operand uses are below 16; a larger one panics on the array index. */
  predicate Selects(rm: LegacyRm) {
    match rm
    case RmReg(r) => r < 16
    case RmMem(r) => r < 16
    case RmSib(_, index, base) => index < 16 && (base < 16 || base == 0xFE || base == 0xFF)
    case RmRipRel => true
  }

  /**
   * The address of a memory operand: a register plus the displacement; for
   * a SIB, `(index << scale) + base + displacement` with base 0xFE meaning
   * rip, base 0xFF meaning none and index 4 meaning none; rip plus the
   * displacement. The additions wrap as in a release build.
   */
  function RmAddress(c: CoreState, rm: LegacyRm, displacement: u64): u64
    requires |c.regs| == 16 && Selects(rm) && !rm.RmReg?
  {
    match rm
    case RmMem(r) => Wrap(c.regs[r] + displacement)
    case RmSib(scale, index, base) =>
      var b := if base == 0xFE then c.rip else if base == 0xFF then 0 else c.regs[base];
      var x := if index == 4 then 0 else c.regs[index];
      Wrap(Wrap(Shl64(x, scale) + b) + displacement)
    case RmRipRel => Wrap(c.rip + displacement)
  }

  /** A SIB with no index is its base plus the displacement: rip-relative for 0xFE, a register otherwise. */
  lemma SibWithoutIndex(c: CoreState, scale: u8, base: u8, displacement: u64)
    requires |c.regs| == 16 && (base < 16 || base == 0xFE)
    ensures base == 0xFE ==> RmAddress(c, RmSib(scale, 4, base), displacement) == RmAddress(c, RmRipRel, displacement)
    ensures base < 16 ==> RmAddress(c, RmSib(scale, 4, base), displacement) == RmAddress(c, RmMem(base), displacement)
  {
    ShiftZero(scale);
    var b := if base == 0xFE then c.rip else c.regs[base];
    assert Wrap(0 + b) == b;
  }

  lemma ShiftZero(scale: u8)
    ensures Shl64(0, scale) == 0
  {
  }

  /** A SIB with neither index nor base is the displacement itself. */
  lemma SibAbsolute(c: CoreState, scale: u8, displacement: u64)
    requires |c.regs| == 16
    ensures RmAddress(c, RmSib(scale, 4, 0xFF), displacement) == displacement
  {
    assert Shl64(0, scale) == 0;
  }

  /**
   * `read_rm`: a register operand gives its low `bytes` bytes; a memory
   * operand reads `bytes` bytes at consecutive addresses from its address,
   * stopping at the first fault, and assembles them little-endian.
   */
  function ReadRm(c: CoreState, rm: LegacyRm, displacement: u64, bytes: nat): (r: Result<u64>)
    requires Fit(c) && Selects(rm) && bytes <= 8
    ensures r.Ok? ==> r.value < Pow256(bytes)
    ensures rm.RmReg? ==> r == Ok(c.regs[rm.reg] % Pow256(bytes))
    ensures !rm.RmReg? ==> (r.Ok? <==> VirtReadBytes(c.regions, c.root, RmAddress(c, rm, displacement), bytes).Ok?)
    ensures !rm.RmReg? && r.Ok? ==>
      ToLe(r.value, bytes) == VirtReadBytes(c.regions, c.root, RmAddress(c, rm, displacement), bytes).value
  {
    match rm
    case RmReg(reg) => Ok(RegisterRead(c.regs[reg], bytes))
    case _ =>
      var va := RmAddress(c, rm, displacement);
      VirtReadNValue(c.regions, c.root, va, bytes);
      Decoder.Pow256Mono(bytes, 8);
      Pow256Table();
      match VirtReadN(c.regions, c.root, va, bytes)
      case Err(f) => Err(f)
      case Ok(v) => Ok(v)
  }

  /** A memory operand reads as the little-endian value of its bytes, or fails with the first fault. */
  lemma ReadRmMemory(c: CoreState, rm: LegacyRm, displacement: u64, bytes: nat)
    requires Fit(c) && Selects(rm) && bytes <= 8 && !rm.RmReg?
    ensures var read := VirtReadBytes(c.regions, c.root, RmAddress(c, rm, displacement), bytes);
      (read.Err? ==> ReadRm(c, rm, displacement, bytes) == Err(read.fault)) &&
      (read.Ok? ==> ReadRm(c, rm, displacement, bytes).Ok? && ReadRm(c, rm, displacement, bytes).value == FromLe(read.value))
  {
  }

  /**
   * `write_rm`: a register operand gets its low `bytes` bytes replaced; a
   * memory operand gets the low `bytes` bytes of the value, little-endian,
   * one `write_u8` at a time, the first fault stopping the writes and
   * keeping the bytes already written.
   */
  function WriteRm(c: CoreState, rm: LegacyRm, displacement: u64, value: u64, bytes: nat): (r: (CoreState, Result<()>))
    requires Fit(c) && Selects(rm) && bytes <= 8
    ensures Fit(r.0)
    ensures rm.RmReg? ==>
      r.1 == Ok(()) && r.0 == c.(regs := c.regs[rm.reg := RegisterWrite(c.regs[rm.reg], value, bytes)])
    ensures !rm.RmReg? ==>
      r.0 == c.(regions := r.0.regions) &&
      (r.0.regions, r.1) == WriteFrom(c.regions, c.root, RmAddress(c, rm, displacement), ToLe(value, bytes), 0)
  {
    match rm
    case RmReg(reg) => (c.(regs := c.regs[reg := RegisterWrite(c.regs[reg], value, bytes)]), Ok(()))
    case _ =>
      ToLePrefix(value, bytes, 8);
      var (regions, w) := WriteFrom(c.regions, c.root, RmAddress(c, rm, displacement), ToLe(value, 8)[..bytes], 0);
      (c.(regions := regions), w)
  }

  // ---- Executing one instruction ----

  /** A port access of `in` or `out`; the devices behind the ports are not part of this model. */
  datatype PortAccess = InAccess(port: u16) | OutAccess(port: u16, value: u8)

  /** The core after an instruction, the port it used, and how it ended. */
  datatype LegacyOutcome = LegacyOutcome(core: CoreState, access: Option<PortAccess>, status: Simulator.Status)

  /** `imm as u16` for the signed port byte of `in`/`out`: sign-extended. */
  function PortOf(imm: i8): (port: u16)
    ensures imm >= 0 ==> port == imm
    ensures imm < 0 ==> port == 0xFF00 + (imm + 0x100)
  {
    I8ToU16(imm)
  }

  /** `in al, imm8` and `out imm8, al` fault with a general protection fault above level 0, before any port access. */
  function Privileged(c: CoreState, body: LegacyOutcome): LegacyOutcome {
    if c.cpl > 0 then LegacyOutcome(c, None, Simulator.Raise(GeneralProtection)) else body
  }

  /** `in al, imm8`: `rax = (rax & 0xFFFF_FFFF_FFFF_FF00) | in_u8(port)`. */
  function PortIn(c: CoreState, input: u8, imm: i8): LegacyOutcome
    requires |c.regs| == 16
  {
    var rax := Or64(And64(c.regs[0], 0xFFFF_FFFF_FFFF_FF00), input);
    Privileged(c, LegacyOutcome(c.(regs := c.regs[0 := rax]), Some(InAccess(PortOf(imm))), Simulator.Advance))
  }

  /** `out imm8, al`: the low byte of rax goes to the port. */
  function PortOut(c: CoreState, imm: i8): LegacyOutcome
    requires |c.regs| == 16
  {
    Privileged(c, LegacyOutcome(c, Some(OutAccess(PortOf(imm), Trunc8(c.regs[0]))), Simulator.Advance))
  }

  /** A 32-bit register set to `(reg as u32).wrapping_add(1) as u64`; the other sizes are `todo!()`. */
  function IncRegister(c: CoreState, reg: Register): LegacyOutcome
    requires |c.regs| == 16
  {
    if reg.size != Size32 || reg.selector >= 16 then LegacyOutcome(c, None, Simulator.Halt)
    else
      var r := reg.selector;
      LegacyOutcome(c.(regs := c.regs[r := Simulator.WrappingInc(Simulator.W32, Trunc32(c.regs[r]))]), None, Simulator.Advance)
  }

  /**
   * `iret`: rip, the flags and rsp from 8, 16 and 24 bytes above rsp, the
   * flags cut to their low 32 bits and the privilege level taken from bits
   * 32..39 of the word read; rip is not advanced.
   */
  function Return(c: CoreState): LegacyOutcome
    requires Fit(c)
  {
    match Simulator.ReturnFrame(c)
    case Err(f) => LegacyOutcome(c, None, Simulator.Raise(f))
    case Ok((ip, flags, sp)) =>
      LegacyOutcome(c.(rip := ip, rflags := And64(flags, 0xFFFF_FFFF), regs := c.regs[SP := sp], cpl := CplOf(flags)),
                    None, Simulator.Stay)
  }

  /** `jmp rel8`: rip moves by the sign-extended offset and then by the instruction's size, wrapping. */
  function JumpRel(c: CoreState, rel: i8, size: nat): LegacyOutcome {
    LegacyOutcome(c.(rip := Wrap(Wrap(c.rip + I8ToU64(rel)) + size)), None, Simulator.Stay)
  }

  /** `mov r32, imm32` and `mov r64, imm64`: the whole register is set (`imm as u64`). */
  function SetRegister(c: CoreState, r: u8, v: u64): LegacyOutcome
    requires |c.regs| == 16
  {
    if r >= 16 then LegacyOutcome(c, None, Simulator.Halt)
    else LegacyOutcome(c.(regs := c.regs[r := v]), None, Simulator.Advance)
  }

  /** `mov r32, r/m32`: four bytes read through `read_rm` and stored in the whole register. */
  function Load(c: CoreState, dest: u8, src: LegacyRm, displacement: u64): LegacyOutcome
    requires Fit(c)
  {
    if !Selects(src) then LegacyOutcome(c, None, Simulator.Halt)
    else
      match ReadRm(c, src, displacement, 4)
      case Err(f) => LegacyOutcome(c, None, Simulator.Raise(f))
      case Ok(v) => SetRegister(c, dest, v)
  }

  /** `mov r/m32, r32`: the low half of the register written through `write_rm`. */
  function Store(c: CoreState, dest: LegacyRm, src: u8, displacement: u64): (o: LegacyOutcome)
    requires Fit(c)
    ensures Fit(o.core)
  {
    if src >= 16 || !Selects(dest) then LegacyOutcome(c, None, Simulator.Halt)
    else
      var (c', w) := WriteRm(c, dest, displacement, And64(c.regs[src], 0xFFFF_FFFF), 4);
      LegacyOutcome(c', None, if w.Err? then Simulator.Raise(w.fault) else Simulator.Advance)
  }

  /**
   * The `match instruction` of `step_instruction`, for an instruction of
   * `size` bytes, with `input` the byte an `in` reads from its port.
   */
  function Execute(c: CoreState, input: u8, i: LegacyInstruction, size: nat): (o: LegacyOutcome)
    requires Fit(c)
    ensures Fit(o.core) && o.core.root == c.root
    ensures !i.Iret? ==> o.core.cpl == c.cpl && o.core.rflags == c.rflags
    ensures i.Iret? ==> o.core.rflags == c.rflags || o.core.rflags < 0x1_0000_0000
  {
    match i
    case In8(imm) => PortIn(c, input, imm)
    case IncReg(reg) => IncRegister(c, reg)
    case Iret => Return(c)
    case JmpRel8(rel) => JumpRel(c, rel, size)
    case MovReg32Imm(r, imm) => SetRegister(c, r, imm)
    case MovReg32RM32(dest, src, displacement) => Load(c, dest, src, displacement)
    case MovReg64Imm(r, imm) => SetRegister(c, r, imm)
    case MovRM32Reg32(dest, src, displacement) => Store(c, dest, src, displacement)
    case Out8(imm) => PortOut(c, imm)
  }

  /**
   * A faulting or panicking instruction changes no register, rip, flag or
   * level and touches no port; only bytes a faulting `write_rm` wrote
   * before its fault stay written.
   */
  lemma FaultChangesNothing(c: CoreState, input: u8, i: LegacyInstruction, size: nat)
    requires Fit(c)
    ensures var o := Execute(c, input, i, size);
      o.status.Raise? || o.status.Halt? ==> o.core == c.(regions := o.core.regions) && o.access.None?
  {
  }

  /**
   * `in` and `out` above level 0 raise a general protection fault before
   * any port access, and only they at level 0 or below access a port.
   */
  lemma PortsNeedLevelZero(c: CoreState, input: u8, i: LegacyInstruction, size: nat)
    requires Fit(c)
    ensures (i.In8? || i.Out8?) && c.cpl > 0 ==>
      Execute(c, input, i, size) == LegacyOutcome(c, None, Simulator.Raise(GeneralProtection))
    ensures Execute(c, input, i, size).access.Some? ==> (i.In8? || i.Out8?) && c.cpl <= 0
  {
  }

  // ---- One step ----

  /** The core after a step and the port access the step made. */
  datatype Stepped = Stepped(core: CoreState, access: Option<PortAccess>)

  /**
   * After an instruction of `size` bytes: rip moves past it, stays where the
   * instruction put it, or the fault goes to `interrupt`; `None` is a triple
   * fault or a panic.
   */
  function Conclude(o: LegacyOutcome, size: nat): (r: Option<Stepped>)
    requires Fit(o.core)
    ensures r.Some? ==> Fit(r.value.core) && r.value.core.rflags == o.core.rflags && r.value.core.root == o.core.root
  {
    if o.status.Advance? then Some(Stepped(o.core.(rip := Wrap(o.core.rip + size)), o.access))
    else if o.status.Stay? then Some(Stepped(o.core, o.access))
    else if o.status.Halt? then None
    else
      match Deliver(o.core, o.status.fault)
      case None => None
      case Some(c') => Some(Stepped(c', o.access))
  }

  /**
   * `step_instruction`: decode at rip, execute, advance rip past the
   * instruction unless it set rip itself, and hand a fault from either to
   * `interrupt` with the state as the instruction left it.
   */
  function LegacyStep(c: CoreState, input: u8): (r: Option<Stepped>)
    requires Fit(c)
    ensures r.Some? ==> Fit(r.value.core) && r.value.core.root == c.root
  {
    Run(c, input, DecodeAt(c.regions, c.root, c.rip))
  }

  /** After decoding: a decoding fault goes to `interrupt`, an instruction is executed and concluded. */
  function Run(c: CoreState, input: u8, d: Result<LegacyDecoded>): (r: Option<Stepped>)
    requires Fit(c)
    ensures r.Some? ==> Fit(r.value.core) && r.value.core.root == c.root
  {
    match d
    case Err(f) => Conclude(LegacyOutcome(c, None, Simulator.Raise(f)), 0)
    case Ok(d) => Conclude(Execute(c, input, d.instruction, d.size), d.size)
  }

  // ---- Properties of the instructions ----

  /** At level 0 or below, `in` replaces the low byte of rax by the byte read and keeps bits 8..63. */
  lemma InReplacesLowByte(c: CoreState, input: u8, imm: i8)
    requires |c.regs| == 16 && c.cpl <= 0
    ensures PortIn(c, input, imm).core.regs[0] == c.regs[0] as int - c.regs[0] % 0x100 + input
    ensures PortIn(c, input, imm).access == Some(InAccess(PortOf(imm)))
  {
    var rax := c.regs[0];
    assert PortIn(c, input, imm).core.regs[0] == Or64(And64(rax, 0xFFFF_FFFF_FFFF_FF00), input);
    InByte(rax, input);
  }

  lemma InByte(h: u64, b: u8)
    ensures Or64(And64(h, 0xFFFF_FFFF_FFFF_FF00), b) == h as int - h % 0x100 + b
  {
    ClearLowByte(h);
    OrLowByte(h / 0x100, b);
  }

  lemma ClearLowByte(h: u64)
    ensures And64(h, 0xFFFF_FFFF_FFFF_FF00) == 0x100 * (h / 0x100)
  {
    Pow2Of8();
    Pow2Of64();
    AndMaskRange(h, 8, 64);
    DivModUnique(h, TWO_64, 0, h);
  }

  lemma OrLowByte(a: nat, b: u8)
    requires 0x100 * a < TWO_64
    ensures Or64(0x100 * a, b) == 0x100 * a + b
  {
    Pow2Of8();
    ShiftedIsProduct(a, 8);
    OrDisjoint(a, b, 8);
  }

  /**
   * A 32-bit `inc` leaves the register below 2^32: one more than its low
   * half, or 0 from 0xFFFF_FFFF. Every other register size halts (`todo!()`).
   */
  lemma IncrementsLowHalf(c: CoreState, reg: Register)
    requires |c.regs| == 16
    ensures reg.size == Size32 && reg.selector < 16 ==>
      var h := c.regs[reg.selector];
      IncRegister(c, reg).status == Simulator.Advance &&
      IncRegister(c, reg).core.regs[reg.selector] ==
        (if h % 0x1_0000_0000 == 0xFFFF_FFFF then 0 else h % 0x1_0000_0000 + 1)
    ensures reg.size != Size32 ==> IncRegister(c, reg).status == Simulator.Halt
  {
  }

  /** `mov r32, r/m32` from a register stores its low half zero-extended. */
  lemma LoadZeroExtends(c: CoreState, dest: u8, src: u8, displacement: u64)
    requires Fit(c) && dest < 16 && src < 16
    ensures Load(c, dest, RmReg(src), displacement).status == Simulator.Advance
    ensures Load(c, dest, RmReg(src), displacement).core.regs[dest] == c.regs[src] % 0x1_0000_0000
  {
    Pow256Table();
  }

  /**
   * `mov r/m32, r32` to a register goes through `write_rm`, which keeps the
   * upper half of the target: unlike the load, it does not zero-extend.
   */
  lemma StoreKeepsUpperHalf(c: CoreState, dest: u8, src: u8, displacement: u64)
    requires Fit(c) && dest < 16 && src < 16
    ensures Store(c, RmReg(dest), src, displacement).status == Simulator.Advance
    ensures Store(c, RmReg(dest), src, displacement).core.regs[dest] ==
      c.regs[dest] as int - c.regs[dest] % 0x1_0000_0000 + c.regs[src] % 0x1_0000_0000
  {
    StoreToRegister(c, dest, src, displacement);
    StoreHalf(c.regs[dest], c.regs[src]);
  }

  lemma StoreToRegister(c: CoreState, dest: u8, src: u8, displacement: u64)
    requires Fit(c) && dest < 16 && src < 16
    ensures Store(c, RmReg(dest), src, displacement) ==
      LegacyOutcome(c.(regs := c.regs[dest := RegisterWrite(c.regs[dest], And64(c.regs[src], 0xFFFF_FFFF), 4)]), None, Simulator.Advance)
  {
  }

  lemma StoreHalf(h: u64, v: u64)
    ensures RegisterWrite(h, And64(v, 0xFFFF_FFFF), 4) == h as int - h % 0x1_0000_0000 + v % 0x1_0000_0000
  {
    Pow256Table();
    LowHalf(v);
  }

  lemma LowHalf(x: u64)
    ensures And64(x, 0xFFFF_FFFF) == x % 0x1_0000_0000
    ensures And64(x, 0xFFFF_FFFF) % 0x1_0000_0000 == x % 0x1_0000_0000
  {
    Pow2Of32();
    AndLowMask(x, 32);
  }

  /** `jmp rel8` lands at rip plus the signed offset plus the instruction's size, modulo 2^64. */
  lemma JumpTarget(c: CoreState, rel: i8, size: nat)
    ensures JumpRel(c, rel, size).core.rip == Wrap(c.rip + rel + size)
    ensures JumpRel(c, rel, size).status == Simulator.Stay
  {
    SignedWrap(c.rip, rel, size);
  }

  lemma SignedWrap(rip: u64, rel: i8, size: nat)
    ensures Wrap(Wrap(rip + I8ToU64(rel)) + size) == Wrap(rip + rel + size)
  {
    WrapAdd(rip + I8ToU64(rel), size);
    if rel < 0 {
      DivModUnique(rip + rel + size + TWO_64, TWO_64, (rip + rel + size) / TWO_64 + 1, Wrap(rip + rel + size));
    }
  }

  /** `EB FE`, a two-byte jump by -2, jumps to itself. */
  lemma JumpToSelf(c: CoreState)
    ensures JumpRel(c, -2, 2).core == c
  {
    JumpTarget(c, -2, 2);
  }

  /** Port bytes 0x80..0xFF are negative and address ports 0xFF80..0xFFFF. */
  lemma HighPortBytes(b: u8)
    requires b >= 0x80
    ensures PortOf(AsI8(b)) == 0xFF00 + b
  {
  }

  /** A decoded `mov r64, imm64` sets the register and moves rip past the instruction. */
  lemma RunMove64(c: CoreState, input: u8, r: u8, imm: u64, size: nat)
    requires Fit(c) && r < 16
    ensures Run(c, input, Ok(LegacyDecoded(MovReg64Imm(r, imm), size))) ==
      Some(Stepped(c.(regs := c.regs[r := imm], rip := Wrap(c.rip + size)), None))
  {
  }

  // ---- The flags invariant ----

  /**
   * The flags stay below 2^32 from one step to the next: `iret` cuts them
   * to 32 bits and nothing else changes them.
   */
  lemma {:induction false} FlagsStayLow(c: CoreState, input: u8)
    requires Fit(c) && c.rflags < 0x1_0000_0000
    ensures LegacyStep(c, input).Some? ==> LegacyStep(c, input).value.core.rflags < 0x1_0000_0000
  {
    match DecodeAt(c.regions, c.root, c.rip)
    case Err(f) =>
    case Ok(d) =>
      var o := Execute(c, input, d.instruction, d.size);
      assert o.core.rflags < 0x1_0000_0000;
  }

  // ---- The processor as an object ----

  /**
   * The older tree's `ProcessorState`: the core it shares with the
   * simulator (registers, `cr2`, level, interrupt stack and table, rip,
   * flags, memory unit). Its port devices are not part of this model.
   */
  class LegacyProcessor {
    const core: Core

    ghost predicate Valid()
      reads this, core, core.mmu, core.mmu.physical
    {
      core.Valid()
    }

    /** The core after an instruction, with the port it used and how it ended. */
    function After(access: Option<PortAccess>, status: Simulator.Status): LegacyOutcome
      reads core, core.regs, core.mmu, core.mmu.physical
    {
      LegacyOutcome(core.State(), access, status)
    }

    /** `ProcessorState::new`: registers, level, interrupt stack, table, rip and flags all zero. */
    constructor(mmu: MemoryManagementUnit)
      requires mmu.Valid()
      ensures Valid() && core.mmu == mmu && fresh(core) && fresh(core.regs)
      ensures core.State() == CoreState(seq(16, _ => 0), 0, 0, 0, 0, 0, 0, mmu.physical.regions, mmu.pagingTableAddress)
    {
      core := new Core(mmu);
    }

    /**
     * `step_instruction`, with `input` the byte a port answers an `in`
     * with. `halted` is a triple fault or a panic.
     */
    method StepInstruction(input: u8) returns (halted: bool, access: Option<PortAccess>)
      requires Valid()
      modifies core, core.regs, core.mmu.physical
      ensures Valid()
      ensures halted <==> LegacyStep(old(core.State()), input).None?
      ensures !halted ==> Stepped(core.State(), access) == LegacyStep(old(core.State()), input).value
    {
      var d := LegacyDecode.Decode(core.mmu, core.rip);
      if d.Err? {
        access := None;
        halted := Finish(access, Simulator.Raise(d.fault), 0);
        return;
      }
      var status;
      status, access := ExecuteInstruction(input, d.value.instruction, d.value.size);
      halted := Finish(access, status, d.value.size);
    }

    /** The end of `step_instruction`: advance rip, keep it, or call `interrupt`. */
    method Finish(access: Option<PortAccess>, status: Simulator.Status, size: nat) returns (halted: bool)
      requires Valid()
      modifies core, core.regs, core.mmu.physical
      ensures Valid()
      ensures halted <==> Conclude(old(After(access, status)), size).None?
      ensures !halted ==> Stepped(core.State(), access) == Conclude(old(After(access, status)), size).value
    {
      if status.Advance? {
        core.rip := Wrap(core.rip + size);
        halted := false;
      } else if status.Stay? {
        halted := false;
      } else if status.Halt? {
        halted := true;
      } else {
        halted := core.Interrupt(status.fault);
      }
    }

    /** The `match instruction` of `step_instruction`. */
    method ExecuteInstruction(input: u8, i: LegacyInstruction, size: nat) returns (status: Simulator.Status, access: Option<PortAccess>)
      requires Valid()
      modifies core, core.regs, core.mmu.physical
      ensures Valid()
      ensures After(access, status) == Execute(old(core.State()), input, i, size)
    {
      access := None;
      match i
      case In8(imm) =>
        if core.cpl > 0 {
          return Simulator.Raise(GeneralProtection), None;
        }
        core.regs[0] := Or64(And64(core.regs[0], 0xFFFF_FFFF_FFFF_FF00), input);
        status, access := Simulator.Advance, Some(InAccess(PortOf(imm)));
      case IncReg(reg) => status := IncrementRegister(reg);
      case Iret => status := InterruptReturn();
      case JmpRel8(rel) =>
        core.rip := Wrap(Wrap(core.rip + I8ToU64(rel)) + size);
        status := Simulator.Stay;
      case MovReg32Imm(r, imm) => status := SetRegisterTo(r, imm);
      case MovReg32RM32(dest, src, displacement) => status := LoadRegister(dest, src, displacement);
      case MovReg64Imm(r, imm) => status := SetRegisterTo(r, imm);
      case MovRM32Reg32(dest, src, displacement) => status := StoreRegister(dest, src, displacement);
      case Out8(imm) =>
        if core.cpl > 0 {
          return Simulator.Raise(GeneralProtection), None;
        }
        status, access := Simulator.Advance, Some(OutAccess(PortOf(imm), Trunc8(core.regs[0])));
    }

    method IncrementRegister(reg: Register) returns (status: Simulator.Status)
      requires Valid()
      modifies core.regs
      ensures Valid()
      ensures After(None, status) == IncRegister(old(core.State()), reg)
    {
      if reg.size != Size32 || reg.selector >= 16 {
        return Simulator.Halt;
      }
      core.regs[reg.selector] := Simulator.WrappingInc(Simulator.W32, Trunc32(core.regs[reg.selector]));
      status := Simulator.Advance;
    }

    method SetRegisterTo(r: u8, v: u64) returns (status: Simulator.Status)
      requires Valid()
      modifies core.regs
      ensures Valid()
      ensures After(None, status) == SetRegister(old(core.State()), r, v)
    {
      if r >= 16 {
        return Simulator.Halt;
      }
      core.regs[r] := v;
      status := Simulator.Advance;
    }

    /** `iret`: three `read_u64` calls above rsp, then rip, the flags cut to 32 bits, rsp and the level. */
    method InterruptReturn() returns (status: Simulator.Status)
      requires Valid()
      modifies core, core.regs
      ensures Valid()
      ensures After(None, status) == Return(old(core.State()))
    {
      var frame := Simulator.ReturnFrame(core.State());
      if frame.Err? {
        return Simulator.Raise(frame.fault);
      }
      var (ip, flags, sp) := frame.value;
      core.rip := ip;
      core.rflags := And64(flags, 0xFFFF_FFFF);
      core.regs[SP] := sp;
      core.cpl := CplOf(flags);
      status := Simulator.Stay;
    }

    method LoadRegister(dest: u8, src: LegacyRm, displacement: u64) returns (status: Simulator.Status)
      requires Valid()
      modifies core.regs
      ensures Valid()
      ensures After(None, status) == Load(old(core.State()), dest, src, displacement)
    {
      if !Selects(src) {
        return Simulator.Halt;
      }
      var v := ReadOperand(src, displacement, 4);
      if v.Err? {
        return Simulator.Raise(v.fault);
      }
      status := SetRegisterTo(dest, v.value);
    }

    method StoreRegister(dest: LegacyRm, src: u8, displacement: u64) returns (status: Simulator.Status)
      requires Valid()
      modifies core.regs, core.mmu.physical
      ensures Valid()
      ensures After(None, status) == Store(old(core.State()), dest, src, displacement)
    {
      if src >= 16 || !Selects(dest) {
        return Simulator.Halt;
      }
      var w := WriteOperand(dest, displacement, And64(core.regs[src], 0xFFFF_FFFF), 4);
      status := if w.Err? then Simulator.Raise(w.fault) else Simulator.Advance;
    }

    /**
     * `read_rm`: the masked register, or `bytes` `read_u8` calls at
     * consecutive addresses into an eight-byte zeroed buffer, read as a
     * little-endian `u64`.
     */
    method ReadOperand(rm: LegacyRm, displacement: u64, bytes: nat) returns (r: Result<u64>)
      requires Valid() && Selects(rm) && bytes <= 8
      ensures r == ReadRm(core.State(), rm, displacement, bytes)
    {
      if rm.RmReg? {
        var mask := MaskOf(bytes);
        return Ok(And64(core.regs[rm.reg], mask));
      }
      var address := RmAddress(core.State(), rm, displacement);
      ReadRmMemory(core.State(), rm, displacement, bytes);
      r := ReadMemory(address, bytes);
    }

    /**
     * The memory half of `read_rm`: `bytes` `read_u8` calls at consecutive
     * addresses into an eight-byte zeroed buffer, read as a little-endian
     * `u64`; the first fault is returned.
     */
    method ReadMemory(address: u64, bytes: nat) returns (r: Result<u64>)
      requires Valid() && bytes <= 8
      ensures var read := VirtReadBytes(core.mmu.physical.regions, core.mmu.pagingTableAddress, address, bytes);
        (read.Err? ==> r == Err(read.fault)) && (read.Ok? ==> r.Ok? && r.value == FromLe(read.value))
    {
      var buffer := new u8[8](_ => 0);
      ghost var zeros := buffer[..];
      WrapSmall(address);
      var read := ReadBytesInto(core.mmu, address, 0, buffer, bytes);
      if read.Err? {
        return Err(read.fault);
      }
      assert buffer[bytes..] == zeros[bytes..];
      Decoder.FromLeZeroPadded(buffer[..], bytes);
      assert buffer[..][..bytes] == buffer[..bytes];
      Pow256Table();
      r := Ok(FromLe(buffer[..]));
    }

    /**
     * `write_rm`: the register merged under the mask, or the low `bytes`
     * bytes of the value written one `write_u8` at a time at consecutive
     * addresses.
     */
    method WriteOperand(rm: LegacyRm, displacement: u64, value: u64, bytes: nat) returns (r: Result<()>)
      requires Valid() && Selects(rm) && bytes <= 8
      modifies core.regs, core.mmu.physical
      ensures Valid()
      ensures (core.State(), r) == WriteRm(old(core.State()), rm, displacement, value, bytes)
    {
      if rm.RmReg? {
        var mask := MaskOf(bytes);
        var h := core.regs[rm.reg];
        core.regs[rm.reg] := Xor64(h, Xor64(And64(h, mask), And64(value, mask)));
        return Ok(());
      }
      var address := RmAddress(core.State(), rm, displacement);
      ToLePrefix(value, bytes, 8);
      r := core.mmu.WriteBytes(address, ToLe(value, 8)[..bytes]);
    }
  }
}

/** `iret` of the older tree after `interrupt` entered a handler. */
module LegacyFrames {
  import opened Bits
  import opened Interrupts
  import opened Physical
  import opened Paging
  import opened Cpu
  import opened FrameMemory
  import opened LegacyState
  import Simulator
  import FrameReturn

  /**
   * `iret` right after a successful entry, with the frame mapped to distinct
   * RAM bytes that no page-table entry of the frame lies in: rip, all
   * sixteen registers (rsp included), the flags and the privilege level are
   * the ones the entry started from, because `iret` cuts the flags word to
   * its low 32 bits, as long as the flags themselves fit in 32 bits.
   */
  lemma LegacyReturnAfterEntry(c: CoreState, d: DescriptorEntry, error: u64, pas: seq<u64>)
    requires Fit(c) && Admits(d, c.cpl) && |pas| == 32 && c.rflags < 0x1_0000_0000
    requires Mapped(c.regions, c.root, FrameBase(StackTop(c)), pas)
    ensures EnterHandler(c, Some(d), error).Entered?
    ensures var entered := EnterHandler(c, Some(d), error).core;
      Return(entered) ==
      LegacyOutcome(entered.(rip := c.rip, rflags := c.rflags, regs := c.regs, cpl := c.cpl), None, Simulator.Stay)
  {
    FrameReturn.FramePushed(c, error, pas);
    var e := EnterHandler(c, Some(d), error).core;
    assert e.regs[SP] == FrameBase(StackTop(c));
    FrameReturn.FrameReadBack(c, error, pas, e);
    assert Simulator.ReturnFrame(e) == Ok((c.rip, FlagsWord(c.cpl, c.rflags), c.regs[SP]));
    assert e.regs[SP := c.regs[SP]] == c.regs;
    FlagsCut(c.cpl, c.rflags);
  }

  /** The pushed flags word cut to 32 bits is the flags, and its bits 32..39 are the level. */
  lemma FlagsCut(cpl: i8, rflags: u64)
    requires rflags < 0x1_0000_0000
    ensures And64(FlagsWord(cpl, rflags), 0xFFFF_FFFF) == rflags
    ensures CplOf(FlagsWord(cpl, rflags)) == cpl
  {
    FlagsWordRoundTrip(cpl, rflags);
    LowHalf(FlagsWord(cpl, rflags));
  }
}
