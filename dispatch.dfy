/**
 * The decoder that the opcode-table macro generates: the prefix bytes, one
 * arm per opcode group, the reg-field opcode extensions, the choice among
 * the variants of an opcode by REX.W and the operand-size prefix, and the
 * assembly of an instruction from its operands and its immediate.
 */
module Dispatch {
  import opened Bits
  import opened Interrupts
  import opened Physical
  import opened Paging
  import opened Macros
  import opened Decoder

  // ---- Instructions ----

  /**
   * `Instruction`: one variant per line of the opcode table, plus the pop
   * and push variants that the step function handles but that no table
   * line produces.
   */
  datatype Instruction =
    | In8(imm: u64) | In16(imm: u64) | In32(imm: u64)
    | In8D | In16D | In32D
    | IncRM8(rm: RM) | IncRM16(rm: RM) | IncRM32(rm: RM) | IncRM64(rm: RM)
    | Iret
    | JmpRel8(imm: u64) | JmpRel32(imm: u64)
    | MovReg8Imm(reg: Selector, imm: u64) | MovReg16Imm(reg: Selector, imm: u64)
    | MovReg32Imm(reg: Selector, imm: u64) | MovReg64Imm(reg: Selector, imm: u64)
    | MovReg8RM(reg: Selector, rm: RM) | MovReg16RM(reg: Selector, rm: RM)
    | MovReg32RM(reg: Selector, rm: RM) | MovReg64RM(reg: Selector, rm: RM)
    | MovRM8Reg(rm: RM, reg: Selector) | MovRM16Reg(rm: RM, reg: Selector)
    | MovRM32Reg(rm: RM, reg: Selector) | MovRM64Reg(rm: RM, reg: Selector)
    | Out8(imm: u64) | Out16(imm: u64) | Out32(imm: u64)
    | Swi4(rm: RM)
    | Wrcr(imm: u64, rm: RM)
    | PopReg16(reg: Selector) | PopReg64(reg: Selector)
    | PushReg16(reg: Selector) | PushReg64(reg: Selector)

  /** The value of one operand field of a decoded instruction (none for an implicit operand). */
  datatype Operand = NoOperand | RegOperand(reg: Selector) | RmOperand(rm: RM) | ImmOperand(imm: u64)

  /** The operand kind an operand encoding produces. */
  predicate Shaped(o: OperandEncoding, x: Operand) {
    match o
    case SuffixReg => x.RegOperand?
    case ModReg => x.RegOperand?
    case ModRM => x.RmOperand?
    case Immediate(_) => x.ImmOperand?
    case Implicit => x.NoOperand?
  }

  /**
   * `OperandEncoding::generate`: a suffix register from the opcode byte and
   * REX.B, the reg or rm of the ModR/M byte, or the immediate. `None` when
   * the operand comes from a ModR/M byte that was not read.
   */
  function OperandFor(o: OperandEncoding, byte: u8, rex: Option<Rex>, modrm: Option<ModrmOperands>, imm: u64)
    : (r: Option<Operand>)
    ensures r.Some? <==> !UsesModrm(o) || modrm.Some?
    ensures r.Some? ==> Shaped(o, r.value)
    ensures o.SuffixReg? ==> r == Some(RegOperand(ParseSuffix(byte, rex)))
    ensures o.ModReg? && modrm.Some? ==> r == Some(RegOperand(modrm.value.reg))
    ensures o.ModRM? && modrm.Some? ==> r == Some(RmOperand(modrm.value.rm))
    ensures o.Immediate? ==> r == Some(ImmOperand(imm))
  {
    match o
    case SuffixReg => Some(RegOperand(ParseSuffix(byte, rex)))
    case ModReg => if modrm.Some? then Some(RegOperand(modrm.value.reg)) else None
    case ModRM => if modrm.Some? then Some(RmOperand(modrm.value.rm)) else None
    case Immediate(_) => Some(ImmOperand(imm))
    case Implicit => Some(NoOperand)
  }

  /**
   * The variants that `step_instruction` matches but the opcode table does
   * not define: no table line is called `PopReg16`, `PopReg64`, `PushReg16`
   * or `PushReg64`.
   */
  predicate StackVariant(i: Instruction) {
    i.PopReg16? || i.PopReg64? || i.PushReg16? || i.PushReg64?
  }

  /** `Instruction::#name { operand0, operand1 }`: the variant of the table line called `name`. */
  function Build(name: string, a: Operand, b: Operand): (r: Option<Instruction>)
    ensures r.Some? ==> !StackVariant(r.value)
  {
    match (name, a, b)
    case ("In8", ImmOperand(v), NoOperand) => Some(In8(v))
    case ("In16", ImmOperand(v), NoOperand) => Some(In16(v))
    case ("In32", ImmOperand(v), NoOperand) => Some(In32(v))
    case ("In8D", NoOperand, NoOperand) => Some(In8D)
    case ("In16D", NoOperand, NoOperand) => Some(In16D)
    case ("In32D", NoOperand, NoOperand) => Some(In32D)
    case ("IncRM8", RmOperand(m), NoOperand) => Some(IncRM8(m))
    case ("IncRM16", RmOperand(m), NoOperand) => Some(IncRM16(m))
    case ("IncRM32", RmOperand(m), NoOperand) => Some(IncRM32(m))
    case ("IncRM64", RmOperand(m), NoOperand) => Some(IncRM64(m))
    case ("Iret", NoOperand, NoOperand) => Some(Iret)
    case ("JmpRel8", ImmOperand(v), NoOperand) => Some(JmpRel8(v))
    case ("JmpRel32", ImmOperand(v), NoOperand) => Some(JmpRel32(v))
    case ("MovReg8Imm", RegOperand(r), ImmOperand(v)) => Some(MovReg8Imm(r, v))
    case ("MovReg16Imm", RegOperand(r), ImmOperand(v)) => Some(MovReg16Imm(r, v))
    case ("MovReg32Imm", RegOperand(r), ImmOperand(v)) => Some(MovReg32Imm(r, v))
    case ("MovReg64Imm", RegOperand(r), ImmOperand(v)) => Some(MovReg64Imm(r, v))
    case ("MovReg8RM", RegOperand(r), RmOperand(m)) => Some(MovReg8RM(r, m))
    case ("MovReg16RM", RegOperand(r), RmOperand(m)) => Some(MovReg16RM(r, m))
    case ("MovReg32RM", RegOperand(r), RmOperand(m)) => Some(MovReg32RM(r, m))
    case ("MovReg64RM", RegOperand(r), RmOperand(m)) => Some(MovReg64RM(r, m))
    case ("MovRM8Reg", RmOperand(m), RegOperand(r)) => Some(MovRM8Reg(m, r))
    case ("MovRM16Reg", RmOperand(m), RegOperand(r)) => Some(MovRM16Reg(m, r))
    case ("MovRM32Reg", RmOperand(m), RegOperand(r)) => Some(MovRM32Reg(m, r))
    case ("MovRM64Reg", RmOperand(m), RegOperand(r)) => Some(MovRM64Reg(m, r))
    case ("Out8", ImmOperand(v), NoOperand) => Some(Out8(v))
    case ("Out16", ImmOperand(v), NoOperand) => Some(Out16(v))
    case ("Out32", ImmOperand(v), NoOperand) => Some(Out32(v))
    case ("Swi4", RmOperand(m), NoOperand) => Some(Swi4(m))
    case ("Wrcr", ImmOperand(v), RmOperand(m)) => Some(Wrcr(v, m))
    case _ => None
  }

  // ---- Facts about the table ----

  /** What the generated decoder relies on for one table line. */
  predicate TableLineFacts(e: InstructionEncoding) {
    && ImmediateSize(e) <= 8
    && (e.opcode1 != 0xFF <==> e.opcode0 == 0x3F || e.opcode0 == 0xFE || e.opcode0 == 0xFF)
    && (HasSuffixReg(e) ==> e.opcode0 == 0xB0 || e.opcode0 == 0xB8)
    && (e.opcode1 != 0xFF ==> !HasSuffixReg(e) && e.opcode1 < 2)
    && e.opcode0 != 0x0F
  }

  lemma TableFacts0(i: nat)
    requires i < 10
    ensures TableLineFacts(TABLE[i])
  {}

  lemma TableFacts1(i: nat)
    requires 10 <= i < 20
    ensures TableLineFacts(TABLE[i])
  {}

  lemma TableFacts2(i: nat)
    requires 20 <= i < |TABLE|
    ensures TableLineFacts(TABLE[i])
  {}

  lemma TableFacts(e: InstructionEncoding)
    requires e in TABLE
    ensures TableLineFacts(e)
  {
    var i :| 0 <= i < |TABLE| && TABLE[i] == e;
    if i < 10 {
      TableFacts0(i);
    } else if i < 20 {
      TableFacts1(i);
    } else {
      TableFacts2(i);
    }
  }

  lemma BuildsTable0(i: nat, a: Operand, b: Operand)
    requires i < 5 && Shaped(TABLE[i].operand0, a) && Shaped(TABLE[i].operand1, b)
    ensures Build(TABLE[i].name, a, b).Some?
  {}

  lemma BuildsTable1(i: nat, a: Operand, b: Operand)
    requires 5 <= i < 10 && Shaped(TABLE[i].operand0, a) && Shaped(TABLE[i].operand1, b)
    ensures Build(TABLE[i].name, a, b).Some?
  {}

  lemma BuildsTable2(i: nat, a: Operand, b: Operand)
    requires 10 <= i < 15 && Shaped(TABLE[i].operand0, a) && Shaped(TABLE[i].operand1, b)
    ensures Build(TABLE[i].name, a, b).Some?
  {}

  lemma BuildsTable3(i: nat, a: Operand, b: Operand)
    requires 15 <= i < 20 && Shaped(TABLE[i].operand0, a) && Shaped(TABLE[i].operand1, b)
    ensures Build(TABLE[i].name, a, b).Some?
  {}

  lemma BuildsTable4(i: nat, a: Operand, b: Operand)
    requires 20 <= i < 25 && Shaped(TABLE[i].operand0, a) && Shaped(TABLE[i].operand1, b)
    ensures Build(TABLE[i].name, a, b).Some?
  {}

  lemma BuildsTable5(i: nat, a: Operand, b: Operand)
    requires 25 <= i < 30 && Shaped(TABLE[i].operand0, a) && Shaped(TABLE[i].operand1, b)
    ensures Build(TABLE[i].name, a, b).Some?
  {}

  /** Every table line builds its variant from operands of the kinds its encodings produce. */
  lemma BuildsTable(e: InstructionEncoding, a: Operand, b: Operand)
    requires e in TABLE && Shaped(e.operand0, a) && Shaped(e.operand1, b)
    ensures Build(e.name, a, b).Some?
  {
    var i :| 0 <= i < |TABLE| && TABLE[i] == e;
    if i < 5 {
      BuildsTable0(i, a, b);
    } else if i < 10 {
      BuildsTable1(i, a, b);
    } else if i < 15 {
      BuildsTable2(i, a, b);
    } else if i < 20 {
      BuildsTable3(i, a, b);
    } else if i < 25 {
      BuildsTable4(i, a, b);
    } else {
      BuildsTable5(i, a, b);
    }
  }

  // ---- Opcode groups ----

  /** Members of a group registered under `b` are table lines registered under `b`. */
  lemma {:induction false} RegisteredIn(table: seq<InstructionEncoding>, b: u8, e: InstructionEncoding)
    requires e in Registered(table, b)
    ensures e in table && RegisteredUnder(e, b)
  {
    if table != [] {
      var front := table[..|table| - 1];
      if e in Registered(front, b) {
        RegisteredIn(front, b, e);
      }
    }
  }

  /**
   * Within the group of one opcode byte every line agrees on whether it is a
   * reg-field extension: exactly the groups of 0x3F, 0xFE and 0xFF are.
   */
  lemma GroupUniform(b: u8, e: InstructionEncoding)
    requires e in Registered(TABLE, b)
    ensures e in TABLE
    ensures e.opcode1 != 0xFF <==> b == 0x3F || b == 0xFE || b == 0xFF
  {
    RegisteredIn(TABLE, b, e);
    TableFacts(e);
  }

  /** The lines of an extension group whose second opcode byte is the reg field, in table order. */
  function Extension(group: seq<InstructionEncoding>, reg: nat): (r: seq<InstructionEncoding>)
    ensures forall e | e in r :: e in group && e.opcode1 == reg
    ensures forall e | e in group && e.opcode1 == reg :: e in r
  {
    if group == [] then []
    else (if group[0].opcode1 == reg then [group[0]] else []) + Extension(group[1..], reg)
  }

  // ---- Choosing a variant ----

  /** The three variants the generated arm looks for. */
  datatype Variant = Wide | SizeOverride | Default

  predicate IsVariant(e: InstructionEncoding, v: Variant) {
    match v
    case Wide => e.wide
    case SizeOverride => e.sizeOverride
    case Default => !e.sizeOverride && !e.wide
  }

  /** `instructions.iter().find(..)`: the first line of the group that is variant `v`. */
  function First(group: seq<InstructionEncoding>, v: Variant): (r: Option<InstructionEncoding>)
    ensures r.None? <==> forall e | e in group :: !IsVariant(e, v)
    ensures r.Some? ==> r.value in group && IsVariant(r.value, v)
    ensures r.Some? ==> exists k | 0 <= k < |group| ::
      group[k] == r.value && forall j | 0 <= j < k :: !IsVariant(group[j], v)
  {
    if group == [] then None
    else if IsVariant(group[0], v) then Some(group[0])
    else
      var rest := First(group[1..], v);
      if rest.Some? then
        var k :| 0 <= k < |group[1..]| && group[1..][k] == rest.value &&
          forall j | 0 <= j < k :: !IsVariant(group[1..][j], v);
        assert group[k + 1] == rest.value;
        rest
      else rest
  }

  predicate HasVariant(group: seq<InstructionEncoding>, v: Variant) {
    exists e | e in group :: IsVariant(e, v)
  }

  /**
   * The body of a generated arm: the wide line if REX.W is set and there is
   * one, else the size-override line if 0x66 was seen and there is one, else
   * the line with neither flag; `None` (Undefined) when there is none.
   */
  function Choose(group: seq<InstructionEncoding>, rexW: bool, sizeOverride: bool): (r: Option<InstructionEncoding>)
    ensures r.Some? ==> r.value in group
    ensures rexW && HasVariant(group, Wide) ==> r.Some? && r.value.wide
    ensures !(rexW && HasVariant(group, Wide)) && sizeOverride && HasVariant(group, SizeOverride) ==>
      r.Some? && r.value.sizeOverride
    ensures !(rexW && HasVariant(group, Wide)) && !(sizeOverride && HasVariant(group, SizeOverride)) ==>
      r == First(group, Default)
    ensures r.None? <==>
      !(rexW && HasVariant(group, Wide)) && !(sizeOverride && HasVariant(group, SizeOverride)) &&
      !HasVariant(group, Default)
  {
    if rexW && First(group, Wide).Some? then First(group, Wide)
    else if sizeOverride && First(group, SizeOverride).Some? then First(group, SizeOverride)
    else First(group, Default)
  }

  // ---- Prefixes ----

  /** The state `decode_internal` carries from one prefix byte to the next. */
  datatype Prefixes = Prefixes(sizeOverride: bool, addressOverride: bool, lockRep: Option<LockRep>,
                               segment: SegmentOverride, rex: Option<Rex>)

  const NO_PREFIXES := Prefixes(false, false, None, NoSegment, None)

  predicate IsRex(byte: u8) { 0x40 <= byte < 0x50 }

  /** The bytes the first `match` of `decode_internal` treats as prefixes. */
  predicate IsPrefix(byte: u8) {
    byte == 0x26 || byte == 0x2E || byte == 0x36 || byte == 0x3E || byte == 0x64 || byte == 0x65 ||
    byte == 0x66 || byte == 0x67 || byte == 0xF0 || byte == 0xF2 || byte == 0xF3 || IsRex(byte)
  }

  /**
   * The arguments of the recursive call for a prefix byte: the segment
   * prefixes 0x26, 0x2E, 0x36 and 0x3E only drop a REX, 0x64 and 0x65 select
   * FS and GS, 0x66 and 0x67 set the operand- and address-size overrides,
   * 0xF0, 0xF2 and 0xF3 record LOCK, REPNE and REPE (0xF3 as `Repe`), and
   * 0x40..0x4F keep a REX for the next byte. Every other prefix drops it.
   */
  function AfterPrefix(p: Prefixes, byte: u8): (q: Prefixes)
    requires IsPrefix(byte)
    ensures q.rex.Some? <==> IsRex(byte)
    ensures IsRex(byte) ==> q.rex == Some(RexOf(byte))
    ensures q.sizeOverride == (p.sizeOverride || byte == 0x66)
    ensures q.addressOverride == (p.addressOverride || byte == 0x67)
    ensures byte == 0x64 ==> q.segment == Fs
    ensures byte == 0x65 ==> q.segment == Gs
    ensures byte != 0x64 && byte != 0x65 ==> q.segment == p.segment
    ensures byte == 0xF0 || byte == 0xF2 || byte == 0xF3 ==> q.lockRep.Some?
    ensures byte != 0xF0 && byte != 0xF2 && byte != 0xF3 ==> q.lockRep == p.lockRep
  {
    if byte == 0x64 then p.(segment := Fs, rex := None)
    else if byte == 0x65 then p.(segment := Gs, rex := None)
    else if byte == 0x66 then p.(sizeOverride := true, rex := None)
    else if byte == 0x67 then p.(addressOverride := true, rex := None)
    else if byte == 0xF0 then p.(lockRep := Some(Lock), rex := None)
    else if byte == 0xF2 then p.(lockRep := Some(Repne), rex := None)
    else if byte == 0xF3 then p.(lockRep := Some(Repe), rex := None)
    else if IsRex(byte) then p.(rex := Some(RexOf(byte)))
    else p.(rex := None)
  }

  // ---- Decoding ----

  /** A decoded instruction and the number of bytes it occupies. */
  datatype Decoded = Decoded(instruction: Instruction, size: nat)

  /** `decode`: decoding starts with no prefixes seen. */
  function Decode(regions: seq<Region>, root: u64, ip: u64): Result<Decoded>
    requires ModulesFit(regions)
  {
    DecodeInternal(regions, root, ip, NO_PREFIXES)
  }

  /**
   * `decode_internal`: the byte at `ip`; a prefix byte decodes the rest
   * from `ip + 1` and adds one to the size, any other byte selects the arm of
   * its opcode group. Each prefix read shortens the run of canonical
   * addresses ahead, which bounds the recursion.
   */
  function DecodeInternal(regions: seq<Region>, root: u64, ip: u64, p: Prefixes): Result<Decoded>
    requires ModulesFit(regions)
    decreases CanonicalRun(ip)
  {
    match VirtRead(regions, root, ip)
    case Err(e) => Err(e)
    case Ok(byte) =>
      if IsPrefix(byte) then
        ReadShrinksRun(regions, root, ip);
        match DecodeInternal(regions, root, Wrap(ip + 1), AfterPrefix(p, byte))
        case Err(e) => Err(e)
        case Ok(d) => Ok(Decoded(d.instruction, d.size + 1))
      else OpcodeArm(regions, root, ip, byte, p)
  }

  /**
   * One arm of the opcode `match`: Undefined for a byte with no group; for a
   * reg-field extension group, the ModR/M byte and then the lines whose
   * second opcode byte equals the reg field (REX.R included); otherwise the
   * whole group.
   */
  function OpcodeArm(regions: seq<Region>, root: u64, ip: u64, byte: u8, p: Prefixes): Result<Decoded>
    requires ModulesFit(regions)
  {
    var group := Registered(TABLE, byte);
    if group == [] then Err(Undefined)
    else if group[0].opcode1 != 0xFF then
      match ModrmAt(regions, root, ip, 1, p.addressOverride, p.segment, p.rex)
      case Err(e) => Err(e)
      case Ok(m) =>
        var sub := Extension(group, m.reg);
        assert forall e | e in sub :: e in TABLE by {
          forall e | e in sub ensures e in TABLE { GroupUniform(byte, e); }
        }
        VariantArm(regions, root, ip, byte, p, sub, Some(m), m.size)
    else
      assert forall e | e in group :: e in TABLE && e.opcode1 == 0xFF by {
        GroupUniform(byte, group[0]);
        forall e | e in group ensures e in TABLE && e.opcode1 == 0xFF { GroupUniform(byte, e); }
      }
      VariantArm(regions, root, ip, byte, p, group, None, 1)
  }

  /** The variant chosen from `group`, decoded; Undefined when there is none. */
  function VariantArm(regions: seq<Region>, root: u64, ip: u64, byte: u8, p: Prefixes,
                      group: seq<InstructionEncoding>, prior: Option<ModrmOperands>, size: nat): Result<Decoded>
    requires ModulesFit(regions)
    requires forall e | e in group :: e in TABLE && (prior.None? ==> e.opcode1 == 0xFF)
  {
    match Choose(group, RexW(p.rex), p.sizeOverride)
    case None => Err(Undefined)
    case Some(e) => DecodeEncoding(regions, root, ip, byte, p, e, prior, size)
  }

  /**
   * `generate_instruction_decode`: the ModR/M byte if the line needs one of
   * its own, then `immediate_size` bytes of immediate (possibly none), then
   * the variant built from the operands.
   */
  function DecodeEncoding(regions: seq<Region>, root: u64, ip: u64, byte: u8, p: Prefixes,
                          e: InstructionEncoding, prior: Option<ModrmOperands>, size: nat): (r: Result<Decoded>)
    requires ModulesFit(regions) && e in TABLE && (prior.None? ==> e.opcode1 == 0xFF)
    ensures r.Ok? ==> !StackVariant(r.value.instruction)
  {
    TableFacts(e);
    var read :=
      if NeedsModrm(e) then
        match ModrmAt(regions, root, ip, size, p.addressOverride, p.segment, p.rex)
        case Err(x) => Err(x)
        case Ok(m) => Ok(Some(m))
      else Ok(prior);
    match read
    case Err(x) => Err(x)
    case Ok(modrm) =>
      var after := if NeedsModrm(e) then modrm.value.size else size;
      match ImmediateAt(regions, root, ip, after, ImmediateSize(e))
      case Err(x) => Err(x)
      case Ok(imm) =>
        var a := OperandFor(e.operand0, byte, p.rex, modrm, imm).value;
        var b := OperandFor(e.operand1, byte, p.rex, modrm, imm).value;
        BuildsTable(e, a, b);
        Ok(Decoded(Build(e.name, a, b).value, after + ImmediateSize(e)))
  }

  // ---- Properties of the decoder ----

  /** A prefix byte adds exactly one to the size of whatever the bytes after it decode to. */
  lemma PrefixAddsOne(regions: seq<Region>, root: u64, ip: u64, p: Prefixes)
    requires ModulesFit(regions) && VirtRead(regions, root, ip).Ok? && IsPrefix(VirtRead(regions, root, ip).value)
    ensures var rest := DecodeInternal(regions, root, Wrap(ip + 1), AfterPrefix(p, VirtRead(regions, root, ip).value));
      var d := DecodeInternal(regions, root, ip, p);
      (d.Ok? <==> rest.Ok?) && (d.Err? ==> d.fault == rest.fault) &&
      (d.Ok? ==> d.value.instruction == rest.value.instruction && d.value.size == rest.value.size + 1)
  {}

  /** Whatever the bytes at `ip` are, a successful decode is a variant of the opcode table, never a push or pop. */
  lemma {:induction false} DecodeNeverStack(regions: seq<Region>, root: u64, ip: u64, p: Prefixes)
    requires ModulesFit(regions)
    ensures DecodeInternal(regions, root, ip, p).Ok? ==> !StackVariant(DecodeInternal(regions, root, ip, p).value.instruction)
    decreases CanonicalRun(ip)
  {
    match VirtRead(regions, root, ip)
    case Err(_) =>
    case Ok(byte) =>
      if IsPrefix(byte) {
        ReadShrinksRun(regions, root, ip);
        DecodeNeverStack(regions, root, Wrap(ip + 1), AfterPrefix(p, byte));
      } else {
        OpcodeArmNeverStack(regions, root, ip, byte, p);
      }
  }

  lemma OpcodeArmNeverStack(regions: seq<Region>, root: u64, ip: u64, byte: u8, p: Prefixes)
    requires ModulesFit(regions)
    ensures OpcodeArm(regions, root, ip, byte, p).Ok? ==> !StackVariant(OpcodeArm(regions, root, ip, byte, p).value.instruction)
  {
    var group := Registered(TABLE, byte);
    if group != [] {
      if group[0].opcode1 != 0xFF {
        match ModrmAt(regions, root, ip, 1, p.addressOverride, p.segment, p.rex)
        case Err(_) =>
        case Ok(m) =>
          var sub := Extension(group, m.reg);
          forall e | e in sub ensures e in TABLE { GroupUniform(byte, e); }
          VariantArmNeverStack(regions, root, ip, byte, p, sub, Some(m), m.size);
      } else {
        forall e | e in group ensures e in TABLE && e.opcode1 == 0xFF {
          GroupUniform(byte, group[0]);
          GroupUniform(byte, e);
        }
        VariantArmNeverStack(regions, root, ip, byte, p, group, None, 1);
      }
    }
  }

  lemma VariantArmNeverStack(regions: seq<Region>, root: u64, ip: u64, byte: u8, p: Prefixes,
                             group: seq<InstructionEncoding>, prior: Option<ModrmOperands>, size: nat)
    requires ModulesFit(regions)
    requires forall e | e in group :: e in TABLE && (prior.None? ==> e.opcode1 == 0xFF)
    ensures var r := VariantArm(regions, root, ip, byte, p, group, prior, size);
      r.Ok? ==> !StackVariant(r.value.instruction)
  {
    match Choose(group, RexW(p.rex), p.sizeOverride)
    case None =>
    case Some(e) =>
  }

  /** A byte that is neither a prefix nor registered in the table is Undefined. */
  lemma UnknownOpcode(regions: seq<Region>, root: u64, ip: u64, p: Prefixes)
    requires ModulesFit(regions) && VirtRead(regions, root, ip).Ok?
    requires !IsPrefix(VirtRead(regions, root, ip).value) && Registered(TABLE, VirtRead(regions, root, ip).value) == []
    ensures DecodeInternal(regions, root, ip, p) == Err(Undefined)
  {}

  /**
   * In an extension group, a reg field that names no line is Undefined; in
   * particular REX.R makes the reg field 8 or more, and no line of the table
   * has a second opcode byte that large.
   */
  lemma UnknownExtension(regions: seq<Region>, root: u64, ip: u64, p: Prefixes)
    requires ModulesFit(regions) && VirtRead(regions, root, ip).Ok?
    requires var byte := VirtRead(regions, root, ip).value;
      !IsPrefix(byte) && (byte == 0x3F || byte == 0xFE || byte == 0xFF)
    requires ModrmAt(regions, root, ip, 1, p.addressOverride, p.segment, p.rex).Ok?
    requires RexR(p.rex)
    ensures DecodeInternal(regions, root, ip, p) == Err(Undefined)
  {
    ExtensionArmUndefined(regions, root, ip, VirtRead(regions, root, ip).value, p);
  }

  lemma ExtensionArmUndefined(regions: seq<Region>, root: u64, ip: u64, byte: u8, p: Prefixes)
    requires ModulesFit(regions) && (byte == 0x3F || byte == 0xFE || byte == 0xFF)
    requires ModrmAt(regions, root, ip, 1, p.addressOverride, p.segment, p.rex).Ok?
    requires RexR(p.rex)
    ensures OpcodeArm(regions, root, ip, byte, p) == Err(Undefined)
  {
    var group := Registered(TABLE, byte);
    var m := ModrmAt(regions, root, ip, 1, p.addressOverride, p.segment, p.rex).value;
    ModrmReg(regions, root, ip, 1, p.addressOverride, p.segment, p.rex);
    ExtensionEmpty(byte, m.reg);
    if group != [] {
      GroupUniform(byte, group[0]);
    }
  }

  /** No line of an opcode group has a second opcode byte from 8 to 15. */
  lemma ExtensionEmpty(byte: u8, reg: nat)
    requires 8 <= reg < 16
    ensures Extension(Registered(TABLE, byte), reg) == []
  {
    var group := Registered(TABLE, byte);
    forall e | e in group
      ensures e.opcode1 != reg
    {
      GroupLineFacts(byte, e);
    }
    NoneMatches(group, reg);
  }

  lemma GroupLineFacts(byte: u8, e: InstructionEncoding)
    requires e in Registered(TABLE, byte)
    ensures TableLineFacts(e)
  {
    RegisteredIn(TABLE, byte, e);
    TableFacts(e);
  }

  lemma NoneMatches(group: seq<InstructionEncoding>, reg: nat)
    requires forall e | e in group :: e.opcode1 != reg
    ensures Extension(group, reg) == []
  {}

  // ---- Groups of the table ----

  lemma {:induction false} RegisteredAppend(front: seq<InstructionEncoding>, back: seq<InstructionEncoding>, b: u8)
    ensures Registered(front + back, b) == Registered(front, b) + Registered(back, b)
  {
    if back != [] {
      var init, last := back[..|back| - 1], back[|back| - 1];
      assert back == init + [last];
      assert front + back == (front + init) + [last];
      RegisteredAppend(front, init, b);
      RegisteredSnoc(front + init, last, b);
      RegisteredSnoc(init, last, b);
    } else {
      assert front + back == front;
    }
  }

  lemma {:induction false} RegisteredNone(table: seq<InstructionEncoding>, b: u8)
    requires forall e | e in table :: !RegisteredUnder(e, b)
    ensures Registered(table, b) == []
  {
    if table != [] {
      var front := table[..|table| - 1];
      assert forall e | e in front :: e in table;
      RegisteredNone(front, b);
    }
  }

  lemma {:induction false} RegisteredAll(table: seq<InstructionEncoding>, b: u8)
    requires forall e | e in table :: RegisteredUnder(e, b)
    ensures Registered(table, b) == table
  {
    if table != [] {
      var front := table[..|table| - 1];
      assert forall e | e in front :: e in table;
      RegisteredAll(front, b);
      assert table == front + [table[|table| - 1]];
    }
  }

  /** The group of each of 0xB8..0xBF is the 16-, 32- and 64-bit moves of an immediate to a register. */
  lemma GroupB8(b: u8)
    requires 0xB8 <= b < 0xC0
    ensures Registered(TABLE, b) == TABLE[14..17]
  {
    RegisteredSplit(TABLE, 14, 17, b);
    BeforeB8(b);
    AtB8(b);
    AfterB8(b);
  }

  lemma RegisteredSplit(table: seq<InstructionEncoding>, i: nat, j: nat, b: u8)
    requires i <= j <= |table|
    ensures Registered(table, b) == Registered(table[..i], b) + Registered(table[i..j], b) + Registered(table[j..], b)
  {
    assert table == table[..i] + table[i..j] + table[j..];
    RegisteredAppend(table[..i] + table[i..j], table[j..], b);
    RegisteredAppend(table[..i], table[i..j], b);
  }

  lemma BeforeB8(b: u8)
    requires 0xB8 <= b < 0xC0
    ensures Registered(TABLE[..14], b) == []
  {
    forall e | e in TABLE[..14]
      ensures !RegisteredUnder(e, b)
    {
      var i :| 0 <= i < 14 && TABLE[i] == e;
      if i < 7 {
        NotUnderB8Low(i, b);
      } else {
        NotUnderB8Mid(i, b);
      }
    }
    RegisteredNone(TABLE[..14], b);
  }

  lemma AtB8(b: u8)
    requires 0xB8 <= b < 0xC0
    ensures Registered(TABLE[14..17], b) == TABLE[14..17]
  {
    forall e | e in TABLE[14..17]
      ensures RegisteredUnder(e, b)
    {
      var i :| 14 <= i < 17 && TABLE[i] == e;
    }
    RegisteredAll(TABLE[14..17], b);
  }

  lemma AfterB8(b: u8)
    requires 0xB8 <= b < 0xC0
    ensures Registered(TABLE[17..], b) == []
  {
    forall e | e in TABLE[17..]
      ensures !RegisteredUnder(e, b)
    {
      var i :| 17 <= i < |TABLE| && TABLE[i] == e;
      if i < 24 {
        NotUnderB8High(i, b);
      } else {
        NotUnderB8Top(i, b);
      }
    }
    RegisteredNone(TABLE[17..], b);
  }

  lemma NotUnderB8Low(i: nat, b: u8)
    requires i < 7 && 0xB8 <= b < 0xC0
    ensures !RegisteredUnder(TABLE[i], b)
  {}

  lemma NotUnderB8Mid(i: nat, b: u8)
    requires 7 <= i < 14 && 0xB8 <= b < 0xC0
    ensures !RegisteredUnder(TABLE[i], b)
  {}

  lemma NotUnderB8High(i: nat, b: u8)
    requires 17 <= i < 24 && 0xB8 <= b < 0xC0
    ensures !RegisteredUnder(TABLE[i], b)
  {}

  lemma NotUnderB8Top(i: nat, b: u8)
    requires 24 <= i < |TABLE| && 0xB8 <= b < 0xC0
    ensures !RegisteredUnder(TABLE[i], b)
  {}

  // ---- Decoding code placed behind the example page tables ----

  /**
   * Page tables at physical 0, 0x1000, 0x2000 and 0x3000 chained by the
   * entries 0x1001, 0x2001, 0x3001 and 0x4001, and `code` at physical 0x4000.
   */
  predicate CodeLoaded(regions: seq<Region>, code: seq<u8>) {
    && ModulesFit(regions) && |code| <= 0x1000
    && PhysReadU64(regions, 0) == 0x1001 && PhysReadU64(regions, 0x1000) == 0x2001
    && PhysReadU64(regions, 0x2000) == 0x3001 && PhysReadU64(regions, 0x3000) == 0x4001
    && forall k | 0 <= k < |code| :: PhysRead(regions, 0x4000 + k) == code[k]
  }

  /** `code` is readable at virtual address `base` under `root`, without wrapping past the top. */
  predicate CodeAt(regions: seq<Region>, root: u64, base: u64, code: seq<u8>) {
    && ModulesFit(regions) && base + |code| < TWO_64
    && forall a: u64 | base <= a < base + |code| :: VirtRead(regions, root, a) == Ok(code[a - base])
  }

  /** With the chained tables, code loaded at physical 0x4000 is at virtual address 0 under root 0. */
  lemma ChainedCodeAt(regions: seq<Region>, code: seq<u8>)
    requires CodeLoaded(regions, code)
    ensures CodeAt(regions, 0, 0, code)
  {
    forall a: u64 | 0 <= a < 0 + |code|
      ensures VirtRead(regions, 0, a) == Ok(code[a - 0])
    {
      ChainedTablesExample(regions, a);
    }
  }

  /** Byte `j` of the code is read at `base + j`. */
  lemma CodeByte(regions: seq<Region>, root: u64, base: u64, code: seq<u8>, a: u64)
    requires CodeAt(regions, root, base, code) && base <= a < base + |code|
    ensures VirtRead(regions, root, a) == Ok(code[a - base])
  {
  }

  /** Offset arithmetic for byte `i` of the slice of `code` starting at `at`, kept apart from any read. */
  lemma SliceOffset(code: seq<u8>, base: int, at: nat, n: nat, start: int, i: nat, a: int)
    requires at + n <= |code| && start == base + at && i < n && a == start + i
    ensures base <= a < base + |code| && code[a - base] == code[at..at + n][i]
  {
  }

  lemma CodeSliceByte(regions: seq<Region>, root: u64, base: u64, code: seq<u8>, at: nat, n: nat, start: u64, i: nat)
    requires CodeAt(regions, root, base, code) && at + n <= |code| && start == base + at && i < n
    ensures VirtRead(regions, root, start + i) == Ok(code[at..at + n][i])
  {
    var a: u64 := start + i;
    SliceOffset(code, base, at, n, start, i, a);
    CodeByte(regions, root, base, code, a);
  }

  /** The `n` bytes of `code` from offset `at` on are read from `base + at`. */
  lemma BytesAt(regions: seq<Region>, root: u64, base: u64, code: seq<u8>, at: nat, n: nat, start: u64)
    requires CodeAt(regions, root, base, code) && at + n <= |code| && start == base + at
    ensures VirtReadBytes(regions, root, start, n) == Ok(code[at..at + n])
  {
    var bs := code[at..at + n];
    forall i | 0 <= i < n
      ensures VirtRead(regions, root, start + i) == Ok(bs[i])
    {
      CodeSliceByte(regions, root, base, code, at, n, start, i);
    }
    VirtReadBytesOfRun(regions, root, start, bs);
  }

  /** An immediate of `n` bytes whose first byte is at offset `at` of the code is those bytes, little-endian. */
  lemma ImmediateAtCode(regions: seq<Region>, root: u64, base: u64, code: seq<u8>, at: nat, n: nat, ip: u64, size: nat)
    requires CodeAt(regions, root, base, code) && at + n <= |code| && n <= 8
    requires Wrap(ip + size) == base + at
    ensures ImmediateAt(regions, root, ip, size, n) == Ok(FromLe(code[at..at + n]))
  {
    BytesAt(regions, root, base, code, at, n, Wrap(ip + size));
  }

  /** `mov r15, 0` (49 BF and eight zero bytes) decodes to a 64-bit move of 0 into register 15, ten bytes long. */
  lemma DecodeMovR15Zero(regions: seq<Region>, root: u64, base: u64)
    requires CodeAt(regions, root, base, MOV_R15_ZERO)
    ensures Decode(regions, root, base) == Ok(Decoded(MovReg64Imm(15, 0), 10))
  {
    MovR15Bytes();
    RexMovAt(regions, root, base, MOV_R15_ZERO, 0);
  }

  /** `mov rdx, 9993` (48 BA 09 27 and six zero bytes) decodes to a 64-bit move of 9993 into register 2. */
  lemma DecodeMovRdx(regions: seq<Region>, root: u64, base: u64)
    requires CodeAt(regions, root, base, MOV_RDX_9993)
    ensures Decode(regions, root, base) == Ok(Decoded(MovReg64Imm(2, 9993), 10))
  {
    MovRdxBytes();
    RexMovAt(regions, root, base, MOV_RDX_9993, 9993);
  }

  const MOV_R15_ZERO: seq<u8> := [0x49, 0xBF, 0, 0, 0, 0, 0, 0, 0, 0]
  const MOV_RDX_9993: seq<u8> := [0x48, 0xBA, 0x09, 0x27, 0, 0, 0, 0, 0, 0]

  /** The fields of the `mov r15, 0` encoding, worked out apart from any read. */
  lemma MovR15Bytes()
    ensures |MOV_R15_ZERO| == 10 && 0x48 <= MOV_R15_ZERO[0] < 0x50 && 0xB8 <= MOV_R15_ZERO[1] < 0xC0
    ensures FromLe(MOV_R15_ZERO[2..10]) == 0 && ParseSuffix(MOV_R15_ZERO[1], Some(RexOf(MOV_R15_ZERO[0]))) == 15
  {
    assert MOV_R15_ZERO[2..10] == [0, 0, 0, 0, 0, 0, 0, 0];
    assert FromLe([0, 0, 0, 0, 0, 0, 0, 0]) == 0;
    assert RexOf(0x49).b;
  }

  /** The fields of the `mov rdx, 9993` encoding, worked out apart from any read. */
  lemma MovRdxBytes()
    ensures |MOV_RDX_9993| == 10 && 0x48 <= MOV_RDX_9993[0] < 0x50 && 0xB8 <= MOV_RDX_9993[1] < 0xC0
    ensures FromLe(MOV_RDX_9993[2..10]) == 9993 && ParseSuffix(MOV_RDX_9993[1], Some(RexOf(MOV_RDX_9993[0]))) == 2
  {
    assert MOV_RDX_9993[2..10] == [0x09, 0x27, 0, 0, 0, 0, 0, 0];
    assert FromLe([0x09, 0x27, 0, 0, 0, 0, 0, 0]) == 9993;
    assert !RexOf(0x48).b;
  }

  /** Ten bytes of code at `base`: a REX.W prefix, an opcode in 0xB8..0xBF and an eight-byte immediate. */
  lemma RexMovAt(regions: seq<Region>, root: u64, base: u64, code: seq<u8>, imm: u64)
    requires CodeAt(regions, root, base, code) && |code| == 10
    requires 0x48 <= code[0] < 0x50 && 0xB8 <= code[1] < 0xC0 && FromLe(code[2..10]) == imm
    ensures Decode(regions, root, base) ==
      Ok(Decoded(MovReg64Imm(ParseSuffix(code[1], Some(RexOf(code[0]))), imm), 10))
  {
    var next: u64 := Wrap(base + 1);
    WrapSmall(base + 1);
    RexMovBytes(regions, root, base, code, next);
    DecodeRexMov(regions, root, base, next, code[0], code[1], imm);
  }

  /** The reads `DecodeRexMov` starts from, for ten bytes of code at `base`. */
  lemma RexMovBytes(regions: seq<Region>, root: u64, base: u64, code: seq<u8>, next: u64)
    requires CodeAt(regions, root, base, code) && |code| == 10 && next == base + 1
    ensures VirtRead(regions, root, base) == Ok(code[0]) && VirtRead(regions, root, next) == Ok(code[1])
    ensures ImmediateAt(regions, root, next, 1, 8) == Ok(FromLe(code[2..10]))
  {
    CodeOffsets(code, base, next);
    CodeByte(regions, root, base, code, base);
    CodeByte(regions, root, base, code, next);
    ImmediateAtCode(regions, root, base, code, 2, 8, next, 1);
  }

  /** Offset arithmetic for the first two bytes of `code`, kept apart from any read. */
  lemma CodeOffsets(code: seq<u8>, base: int, next: int)
    requires 2 <= |code| && 0 <= base && base + |code| < TWO_64 && next == base + 1
    ensures base <= base < base + |code| && code[base - base] == code[0]
    ensures base <= next < base + |code| && code[next - base] == code[1]
    ensures Wrap(next + 1) == base + 2
  {
    WrapSmall(next + 1);
  }

  /**
   * A REX prefix with W set, then an opcode in 0xB8..0xBF, then eight bytes:
   * a 64-bit move of those bytes into the register the opcode's low three
   * bits and REX.B select, ten bytes long.
   */
  lemma DecodeRexMov(regions: seq<Region>, root: u64, ip: u64, next: u64, rex: u8, byte: u8, imm: u64)
    requires ModulesFit(regions) && 0x48 <= rex < 0x50 && 0xB8 <= byte < 0xC0 && next == Wrap(ip + 1)
    requires VirtRead(regions, root, ip) == Ok(rex) && VirtRead(regions, root, next) == Ok(byte)
    requires ImmediateAt(regions, root, next, 1, 8) == Ok(imm)
    ensures Decode(regions, root, ip) == Ok(Decoded(MovReg64Imm(ParseSuffix(byte, Some(RexOf(rex))), imm), 10))
  {
    var p := AfterPrefix(NO_PREFIXES, rex);
    assert p.rex == Some(RexOf(rex));
    RexOfW(rex);
    MovWideArm(regions, root, next, byte, p, imm);
    assert DecodeInternal(regions, root, next, p) == Ok(Decoded(MovReg64Imm(ParseSuffix(byte, p.rex), imm), 9));
  }

  /** The arm of 0xB8..0xBF under REX.W: the 64-bit line, with its eight-byte immediate. */
  lemma MovWideArm(regions: seq<Region>, root: u64, ip: u64, byte: u8, p: Prefixes, imm: u64)
    requires ModulesFit(regions) && 0xB8 <= byte < 0xC0 && RexW(p.rex)
    requires ImmediateAt(regions, root, ip, 1, 8) == Ok(imm)
    ensures OpcodeArm(regions, root, ip, byte, p) == Ok(Decoded(MovReg64Imm(ParseSuffix(byte, p.rex), imm), 9))
  {
    GroupB8(byte);
    MovGroupLines();
    PlainArm(regions, root, ip, byte, p);
    MovWideEncoding(regions, root, ip, byte, p, imm);
  }

  /** The group of 0xB8..0xBF: no reg-field extension, and the 64-bit line is its only wide one. */
  lemma MovGroupLines()
    ensures TABLE[14].opcode1 == 0xFF && TABLE[15].opcode1 == 0xFF && TABLE[16].opcode1 == 0xFF
    ensures First(TABLE[14..17], Wide) == Some(TABLE[16])
  {
    assert TABLE[14..17] == [TABLE[14], TABLE[15], TABLE[16]];
    FirstOfThree(TABLE[14], TABLE[15], TABLE[16], Wide);
  }

  lemma FirstOfThree(x: InstructionEncoding, y: InstructionEncoding, z: InstructionEncoding, v: Variant)
    requires !IsVariant(x, v) && !IsVariant(y, v) && IsVariant(z, v)
    ensures First([x, y, z], v) == Some(z)
  {
    assert [x, y, z][1..] == [y, z];
    assert [y, z][1..] == [z];
  }

  /** An opcode whose group has no reg-field extension chooses among the whole group, one byte in. */
  lemma PlainArm(regions: seq<Region>, root: u64, ip: u64, byte: u8, p: Prefixes)
    requires ModulesFit(regions) && Registered(TABLE, byte) != [] && Registered(TABLE, byte)[0].opcode1 == 0xFF
    ensures forall e | e in Registered(TABLE, byte) :: e in TABLE && e.opcode1 == 0xFF
    ensures OpcodeArm(regions, root, ip, byte, p) == VariantArm(regions, root, ip, byte, p, Registered(TABLE, byte), None, 1)
  {
    var group := Registered(TABLE, byte);
    forall e | e in group
      ensures e in TABLE && e.opcode1 == 0xFF
    {
      GroupUniform(byte, group[0]);
      GroupUniform(byte, e);
    }
  }

  /** Decoding the 64-bit move line: no ModR/M byte, an eight-byte immediate after the opcode. */
  lemma MovWideEncoding(regions: seq<Region>, root: u64, ip: u64, byte: u8, p: Prefixes, imm: u64)
    requires ModulesFit(regions) && 0xB8 <= byte < 0xC0
    requires ImmediateAt(regions, root, ip, 1, 8) == Ok(imm)
    ensures DecodeEncoding(regions, root, ip, byte, p, TABLE[16], None, 1) ==
      Ok(Decoded(MovReg64Imm(ParseSuffix(byte, p.rex), imm), 9))
  {
    var e := TABLE[16];
    assert e == Enc("MovReg64Imm", 0xB8, 0xFF, SuffixReg, Immediate(64), false, true);
    assert !NeedsModrm(e) && ImmediateSize(e) == 8;
  }
}
