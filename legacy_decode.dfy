/**
 * The older tree's decoder and the instructions it produces: a loop over
 * prefix bytes up to the opcode (one byte, `0F xx`, `0F 38 xx` or
 * `0F 3A xx`), then a ModR/M byte for opcode 0xFF, a displacement for 0xEB
 * and an immediate for 0xB8..0xBF, 0xE4 and 0xE6, each a fixed number of
 * bytes read little-endian from `rip + size`.
 */
module LegacyDecode {
  import opened Bits
  import opened Interrupts
  import opened Physical
  import opened Paging
  import Decoder

  // ---- The instructions ----

  datatype RegisterSize = Low8 | High8 | Size16 | Size32 | Size64

  datatype Register = Register(selector: u8, size: RegisterSize)

  datatype DisplacementSize = NoDisplacement | Displacement8 | Displacement32

  /** The width a displacement size is named after, in bits. */
  function DisplacementBits(d: DisplacementSize): nat {
    match d
    case NoDisplacement => 0
    case Displacement8 => 8
    case Displacement32 => 32
  }

  /** `DisplacementSize::into_bytes`: the named width in bytes. */
  function IntoBytes(d: DisplacementSize): (r: nat)
    ensures 8 * r == DisplacementBits(d)
    ensures r == 0 || r == 1 || r == 4
  {
    match d
    case NoDisplacement => 0
    case Displacement8 => 1
    case Displacement32 => 4
  }

  /** `Rm`: a register, memory at a register plus displacement, a SIB address, or rip-relative. */
  datatype LegacyRm = RmReg(reg: u8) | RmMem(base: u8) | RmSib(scale: u8, index: u8, sibBase: u8) | RmRipRel

  /** `Instruction` of the older tree, without `Swi4` and `Wrcr`, which its decoder never yields. */
  datatype LegacyInstruction =
    | In8(port: i8)
    | IncReg(reg: Register)
    | Iret
    | JmpRel8(rel: i8)
    | MovReg32Imm(register: u8, imm32: u32)
    | MovReg32RM32(dest: u8, src: LegacyRm, displacement: u64)
    | MovReg64Imm(register: u8, imm: u64)
    | MovRM32Reg32(target: LegacyRm, source: u8, displacement: u64)
    | Out8(port: i8)

  // ---- The parts of an instruction ----

  datatype Prefix1 = Lock | Repne | Repe
  datatype Prefix2 = SsOverride | EsOverride | FsOverride | GsOverride | BranchNotTaken | BranchTaken

  datatype Opcode = One(byte: u8) | Two(byte: u8) | Three38(byte: u8) | Three3A(byte: u8)

  /** The number of bytes an opcode occupies. */
  function OpcodeLength(op: Opcode): nat {
    match op
    case One(_) => 1
    case Two(_) => 2
    case _ => 3
  }

  datatype ModRm = ModRm(mode: u8, reg: u8, rm: u8)

  /** `ModRM::decode`: bits 7..6, 5..3 and 2..0 of the byte. */
  function ModRmOf(byte: u8): (m: ModRm)
    ensures m.mode < 4 && m.reg < 8 && m.rm < 8
    ensures 64 * m.mode + 8 * m.reg + m.rm == byte
  {
    var low := byte % 64;
    DivModUnique(low, 8, (byte / 8) % 8, byte % 8);
    ModRm(byte / 64, (byte / 8) % 8, byte % 8)
  }

  /** `InstructionParts`; the SIB field is never set and is left out. */
  datatype Parts = Parts(
    prefix1: Option<Prefix1>, prefix2: Option<Prefix2>, operandSize: bool, addressSize: bool,
    rex: Option<Decoder.Rex>, opcode: Option<Opcode>, modrm: Option<ModRm>,
    displacement: u64, immediate: u64)

  const NO_PARTS: Parts := Parts(None, None, false, false, None, None, None, 0, 0)

  predicate IsRex(byte: u8) { 0x40 <= byte < 0x50 }

  predicate IsGroup1(byte: u8) { byte == 0xF0 || byte == 0xF2 || byte == 0xF3 }

  predicate IsGroup2(byte: u8) {
    byte == 0x26 || byte == 0x2E || byte == 0x36 || byte == 0x3E || byte == 0x64 || byte == 0x65
  }

  /** The bytes the first arm of the loop's `match` treats as prefixes. */
  predicate IsLegacyPrefix(byte: u8) {
    IsGroup1(byte) || IsGroup2(byte) || byte == 0x66 || byte == 0x67 || IsRex(byte)
  }

  /** The REX kept for the next byte: one only when this byte is a REX. */
  function RexAfter(byte: u8): Option<Decoder.Rex> {
    if IsRex(byte) then Some(Decoder.RexOf(byte)) else None
  }

  /**
   * One prefix byte: any earlier REX is dropped, a REX byte sets a new one,
   * and the other bytes record their group, a later byte of a group
   * replacing an earlier one. 0x2E is recorded as `BranchTaken` and 0x3E as
   * `BranchNotTaken`.
   */
  function AfterPrefix(p: Parts, byte: u8): (q: Parts)
    requires IsLegacyPrefix(byte)
    ensures q.rex == RexAfter(byte)
    ensures IsGroup1(byte) ==> q.prefix1.Some?
    ensures !IsGroup1(byte) ==> q.prefix1 == p.prefix1
    ensures IsGroup2(byte) ==> q.prefix2.Some?
    ensures !IsGroup2(byte) ==> q.prefix2 == p.prefix2
    ensures q.operandSize == (p.operandSize || byte == 0x66)
    ensures q.addressSize == (p.addressSize || byte == 0x67)
    ensures q.opcode == p.opcode && q.modrm == p.modrm
    ensures q.displacement == p.displacement && q.immediate == p.immediate
  {
    var p := p.(rex := None);
    if byte == 0xF0 then p.(prefix1 := Some(Lock))
    else if byte == 0xF2 then p.(prefix1 := Some(Repne))
    else if byte == 0xF3 then p.(prefix1 := Some(Repe))
    else if byte == 0x36 then p.(prefix2 := Some(SsOverride))
    else if byte == 0x26 then p.(prefix2 := Some(EsOverride))
    else if byte == 0x64 then p.(prefix2 := Some(FsOverride))
    else if byte == 0x65 then p.(prefix2 := Some(GsOverride))
    else if byte == 0x2E then p.(prefix2 := Some(BranchTaken))
    else if byte == 0x3E then p.(prefix2 := Some(BranchNotTaken))
    else if byte == 0x66 then p.(operandSize := true)
    else if byte == 0x67 then p.(addressSize := true)
    else p.(rex := Some(Decoder.RexOf(byte)))
  }

  // ---- The opcode-dependent sizes ----

  /** `nedds_modrm`: only opcode 0xFF has a ModR/M byte. */
  predicate NeedsModrm(op: Opcode) { op == One(0xFF) }

  /** `displacement_size`: one byte for 0xEB, none otherwise. */
  function DisplacementSizeOf(op: Opcode): nat { if op == One(0xEB) then 1 else 0 }

  /** `wide`: REX.W, false without a REX. */
  function Wide(p: Parts): bool { Decoder.RexW(p.rex) }

  /** `rex_r` (no caller uses it) and `rex_b`: the flag moved to bit 3. */
  function RexRBits(p: Parts): nat { if Decoder.RexR(p.rex) then 8 else 0 }
  function RexBBits(p: Parts): nat { if Decoder.RexB(p.rex) then 8 else 0 }

  /** `immediate_size`: 8 or 4 bytes for 0xB8..0xBF by REX.W, 1 for 0xE4 and 0xE6, none otherwise. */
  function ImmediateSizeOf(op: Opcode, wide: bool): (n: nat)
    ensures n <= 8
  {
    match op
    case One(b) =>
      if 0xB8 <= b < 0xC0 then (if wide then 8 else 4)
      else if b == 0xE4 || b == 0xE6 then 1
      else 0
    case _ => 0
  }

  /**
   * `into_instruction`. Only one-byte opcodes decode: 0xB8..0xBF to a move
   * of the immediate into the register of the opcode's low bits and REX.B
   * (64-bit under REX.W, else 32-bit), 0xCF to `iret`, 0xE4 and 0xE6 to
   * `in`/`out` of the signed immediate byte, 0xEB to a jump by the signed
   * displacement byte, and 0xFF with reg field 0 and mod 3 to a 32-bit
   * increment of the rm register (REX.B not applied). Everything else is
   * Undefined.
   */
  function IntoInstruction(p: Parts): (r: Result<LegacyInstruction>)
    requires p.opcode.Some? && (NeedsModrm(p.opcode.value) ==> p.modrm.Some?)
    ensures r.Err? ==> r.fault == Undefined
    ensures !p.opcode.value.One? ==> r.Err?
    ensures var b := p.opcode.value.byte; p.opcode.value.One? && 0xB8 <= b < 0xC0 ==>
      r.Ok? && (r.value.MovReg64Imm? <==> Wide(p)) && (r.value.MovReg64Imm? || r.value.MovReg32Imm?) &&
      r.value.register % 8 == b % 8 && (r.value.register >= 8 <==> Decoder.RexB(p.rex))
    ensures r.Ok? && r.value.MovReg64Imm? ==> r.value.imm == p.immediate
    ensures r.Ok? && r.value.MovReg32Imm? ==> r.value.imm32 == p.immediate % 0x1_0000_0000
    ensures p.opcode.value == One(0xFF) ==>
      (r.Ok? <==> p.modrm.value.reg == 0 && p.modrm.value.mode == 3) &&
      (r.Ok? ==> r.value.IncReg? && r.value.reg.size == Size32 && r.value.reg.selector == p.modrm.value.rm)
  {
    match p.opcode.value
    case One(byte) =>
      if 0xB8 <= byte < 0xC0 && Wide(p) then Ok(MovReg64Imm(Decoder.ParseSuffix(byte, p.rex), p.immediate))
      else if 0xB8 <= byte < 0xC0 then Ok(MovReg32Imm(Decoder.ParseSuffix(byte, p.rex), Trunc32(p.immediate)))
      else if byte == 0xCF then Ok(Iret)
      else if byte == 0xE4 then Ok(In8(AsI8(Trunc8(p.immediate))))
      else if byte == 0xE6 then Ok(Out8(AsI8(Trunc8(p.immediate))))
      else if byte == 0xEB then Ok(JmpRel8(AsI8(Trunc8(p.displacement))))
      else if byte == 0xFF then
        var modrm := p.modrm.value;
        if modrm.reg == 0 && modrm.mode == 3 then Ok(IncReg(Register(modrm.rm, Size32)))
        else Err(Undefined)
      else Err(Undefined)
    case _ => Err(Undefined)
  }

  // ---- Decoding ----

  /**
   * The opcode whose first byte `byte` was read at `rip + at`: that byte,
   * or after 0x0F the next byte, or after `0F 38` and `0F 3A` the one after.
   */
  function OpcodeAt(regions: seq<Region>, root: u64, rip: u64, at: nat, byte: u8): (r: Result<Opcode>)
    requires ModulesFit(regions)
    ensures byte != 0x0F ==> r == Ok(One(byte))
    ensures byte == 0x0F && r.Ok? ==>
      var second := Decoder.Fetch(regions, root, rip, at + 1);
      second.Ok? &&
      (r.value.Two? <==> second.value != 0x38 && second.value != 0x3A) &&
      (r.value.Two? ==> r.value.byte == second.value) &&
      (r.value.Three38? <==> second.value == 0x38) &&
      (r.value.Three3A? <==> second.value == 0x3A) &&
      (!r.value.Two? ==> Decoder.Fetch(regions, root, rip, at + 2) == Ok(r.value.byte))
  {
    if byte != 0x0F then Ok(One(byte))
    else
      match Decoder.Fetch(regions, root, rip, at + 1)
      case Err(e) => Err(e)
      case Ok(second) =>
        if second == 0x38 || second == 0x3A then
          match Decoder.Fetch(regions, root, rip, at + 2)
          case Err(e) => Err(e)
          case Ok(third) => Ok(if second == 0x38 then Three38(third) else Three3A(third))
        else Ok(Two(second))
  }

  /** The canonical addresses left from `rip + size` on, which bounds the prefix loop. */
  function Ahead(rip: u64, size: nat): nat { CanonicalRun(Wrap(rip + size)) }

  /** A byte read at `rip + size` leaves one canonical address less ahead of `rip + size + 1`. */
  lemma RunShrinks(regions: seq<Region>, root: u64, rip: u64, size: nat)
    requires ModulesFit(regions) && Decoder.Fetch(regions, root, rip, size).Ok?
    ensures Ahead(rip, size + 1) < Ahead(rip, size)
  {
    ReadShrinksRun(regions, root, Wrap(rip + size));
    WrapNext(rip, size);
  }

  lemma WrapNext(a: int, b: int)
    ensures Wrap(Wrap(a + b) + 1) == Wrap(a + (b + 1))
  {
    WrapAdd(a + b, 1);
  }

  /** The byte at `rip + at` is read, is a prefix, and turns parts `p` into `q`. */
  predicate PrefixStep(regions: seq<Region>, root: u64, rip: u64, at: nat, p: Parts, q: Parts)
    requires ModulesFit(regions)
  {
    match Decoder.Fetch(regions, root, rip, at)
    case Err(_) => false
    case Ok(byte) => IsLegacyPrefix(byte) && q == AfterPrefix(p, byte)
  }

  /** The byte at `rip + at` is read, is no prefix, and starts opcode `op`. */
  predicate OpcodeStarts(regions: seq<Region>, root: u64, rip: u64, at: nat, op: Opcode)
    requires ModulesFit(regions)
  {
    match Decoder.Fetch(regions, root, rip, at)
    case Err(_) => false
    case Ok(byte) => !IsLegacyPrefix(byte) && OpcodeAt(regions, root, rip, at, byte) == Ok(op)
  }

  /**
   * One pass of the `while` loop of `decode`, at `rip + size` with parts
   * `p` that have no opcode yet: a prefix updates the parts and moves on by
   * one byte, shortening the run of canonical addresses ahead; any other
   * byte starts the opcode, which changes nothing else in the parts.
   */
  function ScanStep(regions: seq<Region>, root: u64, rip: u64, size: nat, p: Parts): (r: Result<(Parts, nat)>)
    requires ModulesFit(regions) && p.opcode.None?
    ensures r.Ok? && r.value.0.opcode.None? ==>
      r.value.1 == size + 1 && Ahead(rip, size + 1) < Ahead(rip, size) &&
      PrefixStep(regions, root, rip, size, p, r.value.0)
    ensures r.Ok? && r.value.0.opcode.Some? ==>
      r.value.1 == size + OpcodeLength(r.value.0.opcode.value) &&
      OpcodeStarts(regions, root, rip, size, r.value.0.opcode.value) &&
      r.value.0 == p.(opcode := r.value.0.opcode)
  {
    match Decoder.Fetch(regions, root, rip, size)
    case Err(e) => Err(e)
    case Ok(byte) =>
      if IsLegacyPrefix(byte) then
        RunShrinks(regions, root, rip, size);
        Ok((AfterPrefix(p, byte), size + 1))
      else
        match OpcodeAt(regions, root, rip, size, byte)
        case Err(e) => Err(e)
        case Ok(op) => Ok((p.(opcode := Some(op)), size + OpcodeLength(op)))
  }

  /**
   * The whole `while` loop of `decode` from `size` bytes on with parts `p`:
   * the parts and the size once the opcode is read, or the first fault.
   */
  function Scan(regions: seq<Region>, root: u64, rip: u64, size: nat, p: Parts): (r: Result<(Parts, nat)>)
    requires ModulesFit(regions) && p.opcode.None?
    ensures r.Ok? ==> r.value.0.opcode.Some?
    decreases Ahead(rip, size)
  {
    match ScanStep(regions, root, rip, size, p)
    case Err(e) => Err(e)
    case Ok((q, next)) =>
      if q.opcode.Some? then Ok((q, next)) else Scan(regions, root, rip, next, q)
  }

  datatype LegacyDecoded = LegacyDecoded(instruction: LegacyInstruction, size: nat)

  /**
   * What `decode` does after the loop: the ModR/M byte if the opcode needs
   * one, then the displacement and the immediate.
   */
  function Complete(regions: seq<Region>, root: u64, rip: u64, p: Parts, size: nat): (r: Result<LegacyDecoded>)
    requires ModulesFit(regions) && p.opcode.Some?
    ensures var op := p.opcode.value;
      r.Ok? ==>
        r.value.size == size + (if NeedsModrm(op) then 1 else 0) + DisplacementSizeOf(op) + ImmediateSizeOf(op, Wide(p))
  {
    if NeedsModrm(p.opcode.value) then
      match Decoder.Fetch(regions, root, rip, size)
      case Err(e) => Err(e)
      case Ok(b) => Operands(regions, root, rip, p.(modrm := Some(ModRmOf(b))), size + 1)
    else Operands(regions, root, rip, p, size)
  }

  /**
   * The displacement bytes from `at` on, then the immediate bytes, then
   * `into_instruction`, whose Undefined comes only once every byte is read.
   */
  function Operands(regions: seq<Region>, root: u64, rip: u64, p: Parts, at: nat): (r: Result<LegacyDecoded>)
    requires ModulesFit(regions) && p.opcode.Some? && (NeedsModrm(p.opcode.value) ==> p.modrm.Some?)
    ensures var op := p.opcode.value;
      r.Ok? ==> r.value.size == at + DisplacementSizeOf(op) + ImmediateSizeOf(op, Wide(p))
  {
    var op := p.opcode.value;
    match Decoder.ImmediateAt(regions, root, rip, at, DisplacementSizeOf(op))
    case Err(e) => Err(e)
    case Ok(d) =>
      var n := ImmediateSizeOf(op, Wide(p));
      match Decoder.ImmediateAt(regions, root, rip, at + DisplacementSizeOf(op), n)
      case Err(e) => Err(e)
      case Ok(imm) =>
        match IntoInstruction(p.(displacement := d, immediate := imm))
        case Err(e) => Err(e)
        case Ok(i) => Ok(LegacyDecoded(i, at + DisplacementSizeOf(op) + n))
  }

  /** `decode`: the instruction at `rip` and its size. */
  function DecodeAt(regions: seq<Region>, root: u64, rip: u64): Result<LegacyDecoded>
    requires ModulesFit(regions)
  {
    match Scan(regions, root, rip, 0, NO_PARTS)
    case Err(e) => Err(e)
    case Ok((p, size)) => Complete(regions, root, rip, p, size)
  }

  /** `(byte as u64) << (8 * i)` ORed into a value below `256^i` adds the byte as lane `i`. */
  lemma OrLane(value: nat, byte: u8, i: nat)
    requires i < 8 && value < Pow256(i)
    ensures value + Pow256(i) * byte < TWO_64
    ensures Or64(value, Shl64(byte, 8 * i)) == value + Pow256(i) * byte
  {
    ShiftLane(byte, i);
    Pow256IsPow2(i);
    OrDisjoint(byte, value, 8 * i);
    OrCommutes(value, Shifted(byte, 8 * i));
  }

  /** For a lane `i < 8`, shifting a byte left by `8 * i` neither wraps nor reaches past the next lane. */
  lemma ShiftLane(byte: u8, i: nat)
    requires i < 8
    ensures Shl64(byte, 8 * i) == Shifted(byte, 8 * i) == Pow256(i) * byte
    ensures Pow256(i) * byte + Pow256(i) <= TWO_64
  {
    Pow256IsPow2(i);
    ShiftedIsProduct(byte, 8 * i);
    Decoder.Pow256Mono(i + 1, 8);
    Pow256Table();
    assert Pow256(i + 1) == 0x100 * Pow256(i);
    LaneBound(byte, Pow256(i));
    assert (8 * i) % 64 == 8 * i;
    WrapSmall(Pow256(i) * byte);
  }

  lemma LaneBound(b: nat, q: nat)
    requires b < 0x100
    ensures q * b + q <= 0x100 * q
  {
    assert 0x100 * q - (q * b + q) == q * (0x100 - b - 1);
  }

  lemma {:induction false} OrCommutes(a: nat, b: nat)
    ensures BitOr(a, b) == BitOr(b, a)
    decreases a + b
  {
    if a != 0 || b != 0 {
      OrCommutes(a / 2, b / 2);
    }
  }

  /**
   * The displacement and immediate loops: `n` bytes read one by one from
   * `rip + at` on, each ORed in at its lane, which is the `n`-byte
   * little-endian value there.
   */
  method ReadLe(mmu: MemoryManagementUnit, rip: u64, at: nat, n: nat) returns (r: Result<u64>)
    requires mmu.Valid() && n <= 8
    ensures r == Decoder.ImmediateAt(mmu.physical.regions, mmu.pagingTableAddress, rip, at, n)
  {
    var regions, root := mmu.physical.regions, mmu.pagingTableAddress;
    var va := Wrap(rip + at);
    var value: u64 := 0;
    ghost var done: seq<u8> := [];
    for i := 0 to n
      invariant |done| == i
      invariant VirtReadBytes(regions, root, va, i) == Ok(done)
      invariant value == FromLe(done)
    {
      var b := VirtRead(regions, root, ByteAddress(va, i));
      if b.Err? {
        VirtReadBytesFaultAfter(regions, root, va, n, i);
        return Err(b.fault);
      }
      VirtReadBytesStep(regions, root, va, i);
      OrLane(value, b.value, i);
      FromLeSnoc(done, b.value);
      value := Or64(value, Shl64(b.value, 8 * i));
      done := done + [b.value];
    }
    return Ok(value);
  }

  /** `decode`: the loop over prefixes up to the opcode, then the bytes the opcode calls for. */
  method Decode(mmu: MemoryManagementUnit, rip: u64) returns (r: Result<LegacyDecoded>)
    requires mmu.Valid()
    ensures r == DecodeAt(mmu.physical.regions, mmu.pagingTableAddress, rip)
  {
    var scanned := ScanPrefixes(mmu, rip);
    if scanned.Err? {
      return Err(scanned.fault);
    }
    var (parts, size) := scanned.value;
    r := DecodeRest(mmu, rip, parts, size);
  }

  /** The `while` loop of `decode`: prefixes are read until a byte starts the opcode. */
  method ScanPrefixes(mmu: MemoryManagementUnit, rip: u64) returns (r: Result<(Parts, nat)>)
    requires mmu.Valid()
    ensures r == Scan(mmu.physical.regions, mmu.pagingTableAddress, rip, 0, NO_PARTS)
  {
    var parts := NO_PARTS;
    var size: nat := 0;
    while parts.opcode.None?
      invariant parts.opcode.None? ==>
        Scan(mmu.physical.regions, mmu.pagingTableAddress, rip, size, parts)
        == Scan(mmu.physical.regions, mmu.pagingTableAddress, rip, 0, NO_PARTS)
      invariant parts.opcode.Some? ==> Scan(mmu.physical.regions, mmu.pagingTableAddress, rip, 0, NO_PARTS) == Ok((parts, size))
      decreases if parts.opcode.None? then 1 else 0, Ahead(rip, size)
    {
      var next := ScanByte(mmu, rip, parts, size);
      if next.Err? {
        return Err(next.fault);
      }
      parts, size := next.value.0, next.value.1;
    }
    r := Ok((parts, size));
  }

  /**
   * One pass of that loop: the byte at `rip + size` is a prefix, which
   * updates the parts, or starts the opcode, which ends the scan.
   */
  method ScanByte(mmu: MemoryManagementUnit, rip: u64, parts: Parts, size: nat) returns (r: Result<(Parts, nat)>)
    requires mmu.Valid() && parts.opcode.None?
    ensures r == ScanStep(mmu.physical.regions, mmu.pagingTableAddress, rip, size, parts)
  {
    var byte := Decoder.Fetch(mmu.physical.regions, mmu.pagingTableAddress, rip, size);
    if byte.Err? {
      return Err(byte.fault);
    }
    if IsLegacyPrefix(byte.value) {
      return Ok((AfterPrefix(parts, byte.value), size + 1));
    }
    var op := ReadOpcode(mmu, rip, size, byte.value);
    if op.Err? {
      return Err(op.fault);
    }
    return Ok((parts.(opcode := Some(op.value)), size + OpcodeLength(op.value)));
  }

  /** The opcode starting with `byte`, read at `rip + at`: one byte, or the bytes after 0x0F. */
  method ReadOpcode(mmu: MemoryManagementUnit, rip: u64, at: nat, byte: u8) returns (r: Result<Opcode>)
    requires mmu.Valid()
    ensures r == OpcodeAt(mmu.physical.regions, mmu.pagingTableAddress, rip, at, byte)
  {
    if byte != 0x0F {
      return Ok(One(byte));
    }
    var second := Decoder.Fetch(mmu.physical.regions, mmu.pagingTableAddress, rip, at + 1);
    if second.Err? {
      return Err(second.fault);
    }
    if second.value == 0x38 || second.value == 0x3A {
      var third := Decoder.Fetch(mmu.physical.regions, mmu.pagingTableAddress, rip, at + 2);
      if third.Err? {
        return Err(third.fault);
      }
      return Ok(if second.value == 0x38 then Three38(third.value) else Three3A(third.value));
    }
    return Ok(Two(second.value));
  }

  /** The part of `decode` after the loop: the ModR/M byte, if the opcode has one. */
  method DecodeRest(mmu: MemoryManagementUnit, rip: u64, parts: Parts, size: nat) returns (r: Result<LegacyDecoded>)
    requires mmu.Valid() && parts.opcode.Some?
    ensures r == Complete(mmu.physical.regions, mmu.pagingTableAddress, rip, parts, size)
  {
    if NeedsModrm(parts.opcode.value) {
      var b := Decoder.Fetch(mmu.physical.regions, mmu.pagingTableAddress, rip, size);
      if b.Err? {
        return Err(b.fault);
      }
      r := ReadOperands(mmu, rip, parts.(modrm := Some(ModRmOf(b.value))), size + 1);
    } else {
      r := ReadOperands(mmu, rip, parts, size);
    }
  }

  /** The displacement and immediate loops of `decode`, then `into_instruction`. */
  method ReadOperands(mmu: MemoryManagementUnit, rip: u64, parts: Parts, at: nat) returns (r: Result<LegacyDecoded>)
    requires mmu.Valid() && parts.opcode.Some? && (NeedsModrm(parts.opcode.value) ==> parts.modrm.Some?)
    ensures r == Operands(mmu.physical.regions, mmu.pagingTableAddress, rip, parts, at)
  {
    var op := parts.opcode.value;
    var d := ReadLe(mmu, rip, at, DisplacementSizeOf(op));
    if d.Err? {
      return Err(d.fault);
    }
    var n := ImmediateSizeOf(op, Wide(parts));
    var imm := ReadLe(mmu, rip, at + DisplacementSizeOf(op), n);
    if imm.Err? {
      return Err(imm.fault);
    }
    var i := IntoInstruction(parts.(displacement := d.value, immediate := imm.value));
    if i.Err? {
      return Err(i.fault);
    }
    return Ok(LegacyDecoded(i.value, at + DisplacementSizeOf(op) + n));
  }

  // ---- Properties of the decoder ----

  /** From `rip + at` on: the bytes `prefixes`, each a prefix, then opcode `op`. */
  predicate PrefixedOpcode(regions: seq<Region>, root: u64, rip: u64, at: nat, prefixes: seq<u8>, op: Opcode)
    requires ModulesFit(regions)
    decreases |prefixes|
  {
    if prefixes == [] then OpcodeStarts(regions, root, rip, at, op)
    else
      Decoder.Fetch(regions, root, rip, at) == Ok(prefixes[0]) && IsLegacyPrefix(prefixes[0]) &&
      PrefixedOpcode(regions, root, rip, at + 1, prefixes[1..], op)
  }

  /**
   * What the loop consumes from `size` on: some prefix bytes, then the
   * opcode, and the size counts exactly those; only a REX as the last
   * prefix is kept, and without prefixes the REX is the one on entry.
   */
  lemma {:induction false} ScanConsumes(regions: seq<Region>, root: u64, rip: u64, size: nat, p: Parts, q: Parts, s: nat)
    returns (prefixes: seq<u8>)
    requires ModulesFit(regions) && p.opcode.None? && Scan(regions, root, rip, size, p) == Ok((q, s))
    ensures q.opcode.Some? && s == size + |prefixes| + OpcodeLength(q.opcode.value)
    ensures PrefixedOpcode(regions, root, rip, size, prefixes, q.opcode.value)
    ensures q.rex == if prefixes == [] then p.rex else RexAfter(prefixes[|prefixes| - 1])
    decreases Ahead(rip, size)
  {
    match ScanStep(regions, root, rip, size, p)
    case Ok((q1, next)) =>
      if q1.opcode.None? {
        match Decoder.Fetch(regions, root, rip, size)
        case Ok(byte) =>
          var rest := ScanConsumes(regions, root, rip, size + 1, q1, q, s);
          prefixes := [byte] + rest;
          assert prefixes[1..] == rest;
          if rest != [] {
            assert prefixes[|prefixes| - 1] == rest[|rest| - 1];
          }
      } else {
        prefixes := [];
      }
  }
}

/** The decoder's own examples: the test programs behind the example page tables. */
module LegacyDecodeExamples {
  import opened Bits
  import opened Physical
  import opened Interrupts
  import Decoder
  import Dispatch
  import opened LegacyDecode

  /**
   * `mov r15, 0` placed behind the example page tables and decoded at
   * address 0: a 64-bit move of 0 into register 15, ten bytes long.
   */
  lemma LegacyDecodeMovR15Zero(regions: seq<Region>)
    requires Dispatch.CodeLoaded(regions, Dispatch.MOV_R15_ZERO)
    ensures DecodeAt(regions, 0, 0) == Ok(LegacyDecoded(MovReg64Imm(15, 0), 10))
  {
    Dispatch.ChainedCodeAt(regions, Dispatch.MOV_R15_ZERO);
    Dispatch.MovR15Bytes();
    RexMov(regions, Dispatch.MOV_R15_ZERO);
  }

  /** `mov rdx, 9993` placed behind the example page tables: a 64-bit move of 9993 into register 2. */
  lemma LegacyDecodeMovRdx(regions: seq<Region>)
    requires Dispatch.CodeLoaded(regions, Dispatch.MOV_RDX_9993)
    ensures DecodeAt(regions, 0, 0) == Ok(LegacyDecoded(MovReg64Imm(2, 9993), 10))
  {
    Dispatch.ChainedCodeAt(regions, Dispatch.MOV_RDX_9993);
    Dispatch.MovRdxBytes();
    RexMov(regions, Dispatch.MOV_RDX_9993);
  }

  /** A REX.W byte, an opcode in 0xB8..0xBF and eight immediate bytes at address 0 decode to a 64-bit move. */
  lemma RexMov(regions: seq<Region>, code: seq<u8>)
    requires Dispatch.CodeAt(regions, 0, 0, code) && |code| == 10
    requires 0x48 <= code[0] < 0x50 && 0xB8 <= code[1] < 0xC0
    ensures FromLe(code[2..10]) < TWO_64
    ensures DecodeAt(regions, 0, 0) ==
      Ok(LegacyDecoded(MovReg64Imm(Decoder.ParseSuffix(code[1], Some(Decoder.RexOf(code[0]))), FromLe(code[2..10])), 10))
  {
    Dispatch.CodeByte(regions, 0, 0, code, 0);
    Dispatch.CodeByte(regions, 0, 0, code, 1);
    assert Decoder.Fetch(regions, 0, 0, 0) == Ok(code[0]);
    assert Decoder.Fetch(regions, 0, 0, 1) == Ok(code[1]);
    RexOpcodeScan(regions, 0, 0, code[0], code[1]);
    Decoder.RexOfW(code[0]);
    ImmediateBytes(regions, code);
    MovImm64Operands(regions, AfterPrefix(NO_PARTS, code[0]).(opcode := Some(One(code[1]))), code[2..10]);
  }

  /** The eight bytes after the first two of the code are the immediate read at size 2. */
  lemma ImmediateBytes(regions: seq<Region>, code: seq<u8>)
    requires Dispatch.CodeAt(regions, 0, 0, code) && |code| == 10
    ensures Decoder.ImmediateAt(regions, 0, 0, 2, 8) == Ok(FromLe(code[2..10]))
  {
    assert Wrap(0 + 2) == 2;
    Dispatch.ImmediateAtCode(regions, 0, 0, code, 2, 8, 0, 2);
  }

  /** A REX byte, then a byte in 0xB8..0xBF: the loop stops after two bytes at a one-byte opcode. */
  lemma RexOpcodeScan(regions: seq<Region>, root: u64, rip: u64, rex: u8, opcode: u8)
    requires ModulesFit(regions)
    requires Decoder.Fetch(regions, root, rip, 0) == Ok(rex) && Decoder.Fetch(regions, root, rip, 1) == Ok(opcode)
    requires 0x40 <= rex < 0x50 && 0xB8 <= opcode < 0xC0
    ensures Scan(regions, root, rip, 0, NO_PARTS) == Ok((AfterPrefix(NO_PARTS, rex).(opcode := Some(One(opcode))), 2))
  {
    var p := AfterPrefix(NO_PARTS, rex);
    RexPrefixStep(regions, root, rip, rex);
    MovOpcodeStep(regions, root, rip, 1, p, opcode);
    assert Scan(regions, root, rip, 1, p) == Ok((p.(opcode := Some(One(opcode))), 2));
  }

  /** A REX byte is a prefix: the loop records it and moves on one byte. */
  lemma RexPrefixStep(regions: seq<Region>, root: u64, rip: u64, rex: u8)
    requires ModulesFit(regions)
    requires Decoder.Fetch(regions, root, rip, 0) == Ok(rex) && 0x40 <= rex < 0x50
    ensures ScanStep(regions, root, rip, 0, NO_PARTS) == Ok((AfterPrefix(NO_PARTS, rex), 1))
  {
  }

  /** A byte in 0xB8..0xBF ends the loop as a one-byte opcode. */
  lemma MovOpcodeStep(regions: seq<Region>, root: u64, rip: u64, size: nat, p: Parts, opcode: u8)
    requires ModulesFit(regions) && p.opcode.None?
    requires Decoder.Fetch(regions, root, rip, size) == Ok(opcode) && 0xB8 <= opcode < 0xC0
    ensures ScanStep(regions, root, rip, size, p) == Ok((p.(opcode := Some(One(opcode))), size + 1))
  {
    MovIsNoPrefix(opcode);
  }

  lemma MovIsNoPrefix(opcode: u8)
    requires 0xB8 <= opcode < 0xC0
    ensures !IsLegacyPrefix(opcode)
  {
  }

  /** Opcode 0xB8..0xBF under REX.W at size 2, then eight bytes: a 64-bit move of those bytes, ten bytes in all. */
  lemma MovImm64Operands(regions: seq<Region>, p: Parts, imm: seq<u8>)
    requires ModulesFit(regions) && p.opcode.Some? && p.opcode.value.One? && 0xB8 <= p.opcode.value.byte < 0xC0
    requires Wide(p) && |imm| == 8 && Decoder.ImmediateAt(regions, 0, 0, 2, 8) == Ok(FromLe(imm))
    ensures FromLe(imm) < TWO_64
    ensures Complete(regions, 0, 0, p, 2) ==
      Ok(LegacyDecoded(MovReg64Imm(Decoder.ParseSuffix(p.opcode.value.byte, p.rex), FromLe(imm)), 10))
  {
    Pow256Table();
    MovLayout(p, FromLe(imm));
    assert Decoder.ImmediateAt(regions, 0, 0, 2, 0) == Ok(0);
  }

  /** Opcode 0xB8..0xBF under REX.W: no ModR/M, no displacement, eight immediate bytes, a 64-bit move. */
  lemma MovLayout(p: Parts, imm: u64)
    requires p.opcode.Some? && p.opcode.value.One? && 0xB8 <= p.opcode.value.byte < 0xC0 && Wide(p)
    ensures var op := p.opcode.value;
      !NeedsModrm(op) && DisplacementSizeOf(op) == 0 && ImmediateSizeOf(op, Wide(p)) == 8 &&
      IntoInstruction(p.(displacement := 0, immediate := imm)) ==
        Ok(MovReg64Imm(Decoder.ParseSuffix(p.opcode.value.byte, p.rex), imm))
  {
  }
}
