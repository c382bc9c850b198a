/**
 * The simulator's instruction decoder: REX prefixes, the ModR/M and SIB
 * bytes with their displacements (the layout of sections 2.1.1, 2.1.5 and
 * 2.2.1 of volume 2A of the Intel SDM, with the deviations of the source:
 * an 8-bit displacement is zero-extended), immediates, and the decoder that
 * the opcode-table macro generates: prefix bytes, one arm per opcode group,
 * reg-field opcode extensions and the choice among the variants of an
 * opcode. Every byte is fetched through the memory management unit at
 * `instruction_pointer + size` (wrapping), so any fetch can fault.
 */
module Decoder {
  import opened Bits
  import opened Interrupts
  import opened Physical
  import opened Paging
  import opened Macros

  // ---- REX ----

  /** `Rex`: the four flag bits of a REX prefix. */
  datatype Rex = Rex(w: bool, r: bool, x: bool, b: bool)

  /** The weight of a flag that is set. */
  function BitValue(flag: bool, weight: nat): nat { if flag then weight else 0 }

  /** `Rex::new`: w, r, x and b are bits 3, 2, 1 and 0 of the prefix byte. */
  function RexOf(byte: u8): (rex: Rex)
    ensures byte % 16 == BitValue(rex.w, 8) + BitValue(rex.r, 4) + BitValue(rex.x, 2) + BitValue(rex.b, 1)
  {
    NibbleMod(byte);
    Rex(byte % 16 >= 8, byte % 8 >= 4, byte % 4 >= 2, byte % 2 == 1)
  }

  /** Among the REX bytes 0x40..0x4F, W is set exactly in 0x48..0x4F. */
  lemma RexOfW(byte: u8)
    requires 0x40 <= byte < 0x50
    ensures RexOf(byte).w <==> byte >= 0x48
  {
    assert byte % 16 == byte - 0x40;
  }

  /** The remainders of a byte modulo 8, 4 and 2 are those of its low nibble. */
  lemma NibbleMod(byte: u8)
    ensures byte % 8 == (byte % 16) % 8 && byte % 4 == (byte % 8) % 4 && byte % 2 == (byte % 4) % 2
  {
    var q := byte / 16;
    assert byte == 16 * q + byte % 16;
    assert byte == 8 * (2 * q) + byte % 16;
  }

  /** `rex_w`, `rex_r`, `rex_x`, `rex_b`: the flag of the prefix, false when there is none. */
  function RexW(rex: Option<Rex>): bool { rex.Some? && rex.value.w }
  function RexR(rex: Option<Rex>): bool { rex.Some? && rex.value.r }
  function RexX(rex: Option<Rex>): bool { rex.Some? && rex.value.x }
  function RexB(rex: Option<Rex>): bool { rex.Some? && rex.value.b }

  /** A register number 0..15. */
  type Selector = r: int | 0 <= r < 16

  /** `((flag as u8) << 3) | field`: a 3-bit field extended by a REX flag. */
  function RegField(high: bool, field: nat): (r: Selector)
    requires field < 8
    ensures r % 8 == field && (r >= 8 <==> high)
  {
    BitValue(high, 8) + field
  }

  /** `Reg::parse_suffix`: the low three bits of the opcode, extended by REX.B. */
  function ParseSuffix(opcode: u8, rex: Option<Rex>): (r: Selector)
    ensures r % 8 == opcode % 8 && (r >= 8 <==> RexB(rex))
  {
    RegField(RexB(rex), opcode % 8)
  }

  // ---- Operands in memory ----

  datatype SegmentOverride = NoSegment | Fs | Gs

  /** `LockRep`: recorded from the F0, F2 and F3 prefixes and otherwise unused. */
  datatype LockRep = Lock | Rep | Repe | Repne

  /** The base register of a memory operand, or `NO_BASE` for none. */
  const NO_BASE: int := 0xFF
  type BaseSelector = b: int | 0 <= b < 16 || b == NO_BASE

  /** Index 4 (without REX.X) stands for no index register. */
  const NO_INDEX: Selector := 4

  type Scale = s: int | 0 <= s < 4

  /** `RM`: a register, a rip-relative address, or base + (index << scale) + displacement. */
  datatype RM =
    | Reg(reg: Selector)
    | RipRel(displacement: u32, addressOverride: bool)
    | Mem(index: Selector, scale: Scale, base: BaseSelector, displacement: u32, addressOverride: bool,
          segmentOverride: SegmentOverride)

  /** `parse_sib`: scale from bits 7..6, index from bits 5..3 and REX.X, base from bits 2..0 and REX.B. */
  function ParseSib(byte: u8, ao: bool, seg: SegmentOverride, displacement: u32, rex: Option<Rex>): (r: RM)
    ensures r.Mem? && r.base != NO_BASE
    ensures byte == 64 * r.scale + 8 * (r.index % 8) + r.base % 8
    ensures (r.index >= 8 <==> RexX(rex)) && (r.base >= 8 <==> RexB(rex))
    ensures r.displacement == displacement && r.addressOverride == ao && r.segmentOverride == seg
  {
    Mem(RegField(RexX(rex), (byte / 8) % 8), byte / 64, RegField(RexB(rex), byte % 8), displacement, ao, seg)
  }

  /** `parse_sib_no_base`: as `parse_sib`, with no base register. */
  function ParseSibNoBase(byte: u8, ao: bool, seg: SegmentOverride, displacement: u32, rex: Option<Rex>): (r: RM)
    ensures r.Mem? && r.base == NO_BASE
    ensures byte / 8 == 8 * r.scale + r.index % 8 && (r.index >= 8 <==> RexX(rex))
    ensures r.displacement == displacement && r.addressOverride == ao && r.segmentOverride == seg
  {
    Mem(RegField(RexX(rex), (byte / 8) % 8), byte / 64, NO_BASE, displacement, ao, seg)
  }

  // ---- Fetching ----

  /** `read_u8(instruction_pointer + size)`. */
  function Fetch(regions: seq<Region>, root: u64, ip: u64, size: nat): Result<u8>
    requires ModulesFit(regions)
  {
    VirtRead(regions, root, Wrap(ip + size))
  }

  lemma Pow256Mono(n: nat, m: nat)
    requires n <= m
    ensures Pow256(n) <= Pow256(m)
    decreases m
  {
    if n < m {
      Pow256Mono(n, m - 1);
    }
  }

  /** The `n` bytes from `instruction_pointer + size` on, little-endian (the byte `i` at `instruction_pointer + size + i`). */
  function FetchLe(regions: seq<Region>, root: u64, ip: u64, size: nat, n: nat): (r: Result<nat>)
    requires ModulesFit(regions)
    ensures r.Ok? ==> r.value < Pow256(n)
  {
    VirtReadNValue(regions, root, Wrap(ip + size), n);
    VirtReadN(regions, root, Wrap(ip + size), n)
  }

  /** A displacement of `n <= 4` bytes, zero-extended to 32 bits. */
  function Displacement(regions: seq<Region>, root: u64, ip: u64, size: nat, n: nat): (r: Result<u32>)
    requires ModulesFit(regions) && n <= 4
  {
    Pow256Mono(n, 4);
    Pow256Table();
    match FetchLe(regions, root, ip, size, n)
    case Err(e) => Err(e)
    case Ok(d) => Ok(d)
  }

  /** `read_immediate` for `n <= 8` bytes: the bytes little-endian, zero-padded to 64 bits. */
  function ImmediateAt(regions: seq<Region>, root: u64, ip: u64, size: nat, n: nat): (r: Result<u64>)
    requires ModulesFit(regions) && n <= 8
  {
    Pow256Mono(n, 8);
    Pow256Table();
    match FetchLe(regions, root, ip, size, n)
    case Err(e) => Err(e)
    case Ok(v) => Ok(v)
  }

  /** What `read_modrm` yields: the reg field, the operand, and the size after the bytes it consumed. */
  datatype ModrmOperands = ModrmOperands(reg: Selector, rm: RM, size: nat)

  /** An operand together with the size after the bytes that encode it. */
  datatype Located = Located(rm: RM, size: nat)

  /** `read_modrm` with `*size == size` on entry: the ModR/M byte, then the arm of its mod field. */
  function ModrmAt(regions: seq<Region>, root: u64, ip: u64, size: nat, ao: bool, seg: SegmentOverride,
                   rex: Option<Rex>): (r: Result<ModrmOperands>)
    requires ModulesFit(regions)
  {
    match Fetch(regions, root, ip, size)
    case Err(e) => Err(e)
    case Ok(modrm) =>
      var reg := RegField(RexR(rex), (modrm / 8) % 8);
      var rmField := modrm % 8;
      var mode := modrm / 64;
      var operand :=
        if mode == 0 then Mode0Operand(regions, root, ip, size + 1, rmField, ao, seg, rex)
        else if mode == 1 then Mode1Operand(regions, root, ip, size + 1, rmField, ao, seg, rex)
        else if mode == 2 then Mode2Operand(regions, root, ip, size + 1, rmField, ao, seg, rex)
        else Ok(Located(Reg(RegField(RexB(rex), rmField)), size + 1));
      match operand
      case Err(e) => Err(e)
      case Ok(o) => Ok(ModrmOperands(reg, o.rm, o.size))
  }

  /** The register `rm` names as a base, with index 4 (none), scale 0 and the given displacement. */
  function BaseOperand(rmField: nat, displacement: u32, ao: bool, seg: SegmentOverride, rex: Option<Rex>): RM
    requires rmField < 8
  {
    Mem(NO_INDEX, 0, RegField(RexB(rex), rmField), displacement, ao, seg)
  }

  /**
   * mod 0, with `size` just past the ModR/M byte: rm 4 reads a SIB byte and,
   * for SIB base 5, a 4-byte displacement with no base; rm 5 is rip-relative
   * with a 4-byte displacement; any other rm is that base register alone.
   */
  function Mode0Operand(regions: seq<Region>, root: u64, ip: u64, size: nat, rmField: nat, ao: bool,
                        seg: SegmentOverride, rex: Option<Rex>): Result<Located>
    requires ModulesFit(regions) && rmField < 8
  {
    if rmField == 4 then
      match Fetch(regions, root, ip, size)
      case Err(e) => Err(e)
      case Ok(sib) =>
        if sib % 8 == 5 then
          match Displacement(regions, root, ip, size + 1, 4)
          case Err(e) => Err(e)
          case Ok(d) => Ok(Located(ParseSibNoBase(sib, ao, seg, d, rex), size + 5))
        else Ok(Located(ParseSib(sib, ao, seg, 0, rex), size + 1))
    else if rmField == 5 then
      match Displacement(regions, root, ip, size, 4)
      case Err(e) => Err(e)
      case Ok(d) => Ok(Located(RipRel(d, ao), size + 4))
    else Ok(Located(BaseOperand(rmField, 0, ao, seg, rex), size))
  }

  /** mod 1: a SIB byte when rm is 4, then one displacement byte, zero-extended. */
  function Mode1Operand(regions: seq<Region>, root: u64, ip: u64, size: nat, rmField: nat, ao: bool,
                        seg: SegmentOverride, rex: Option<Rex>): Result<Located>
    requires ModulesFit(regions) && rmField < 8
  {
    if rmField == 4 then
      match Fetch(regions, root, ip, size)
      case Err(e) => Err(e)
      case Ok(sib) =>
        match Fetch(regions, root, ip, size + 1)
        case Err(e) => Err(e)
        case Ok(d) => Ok(Located(ParseSib(sib, ao, seg, d, rex), size + 2))
    else
      match Fetch(regions, root, ip, size)
      case Err(e) => Err(e)
      case Ok(d) => Ok(Located(BaseOperand(rmField, d, ao, seg, rex), size + 1))
  }

  /** mod 2: a SIB byte when rm is 4, then a 4-byte little-endian displacement. */
  function Mode2Operand(regions: seq<Region>, root: u64, ip: u64, size: nat, rmField: nat, ao: bool,
                        seg: SegmentOverride, rex: Option<Rex>): Result<Located>
    requires ModulesFit(regions) && rmField < 8
  {
    if rmField == 4 then
      match Fetch(regions, root, ip, size)
      case Err(e) => Err(e)
      case Ok(sib) =>
        match Displacement(regions, root, ip, size + 1, 4)
        case Err(e) => Err(e)
        case Ok(d) => Ok(Located(ParseSib(sib, ao, seg, d, rex), size + 5))
    else
      match Displacement(regions, root, ip, size, 4)
      case Err(e) => Err(e)
      case Ok(d) => Ok(Located(BaseOperand(rmField, d, ao, seg, rex), size + 4))
  }

  /**
   * The length of the ModR/M encoding by the rules of section 2.1.5 of
   * volume 2A of the Intel SDM: the ModR/M byte, a SIB byte when mod != 3
   * and rm == 4, and a displacement of 4 bytes for mod 0 with rm 5 or a SIB
   * base of 5, 1 byte for mod 1, 4 bytes for mod 2.
   */
  function ModrmLength(modrm: u8, sib: u8): nat {
    var mode := modrm / 64;
    var rmField := modrm % 8;
    var sibBytes := if mode != 3 && rmField == 4 then 1 else 0;
    var disp :=
      if mode == 1 then 1
      else if mode == 2 then 4
      else if mode == 0 && (rmField == 5 || (rmField == 4 && sib % 8 == 5)) then 4
      else 0;
    1 + sibBytes + disp
  }

  /** The byte after ModR/M, read as a SIB byte (0 when it cannot be fetched; then it is not one). */
  function SibAfter(regions: seq<Region>, root: u64, ip: u64, size: nat): u8
    requires ModulesFit(regions)
  {
    var f := Fetch(regions, root, ip, size + 1);
    if f.Ok? then f.value else 0
  }

  /**
   * A successful `read_modrm` consumes exactly the ModR/M encoding: the size
   * grows by its length (the SIB byte being the byte after ModR/M), the reg
   * field is bits 5..3 extended by REX.R, mod 3 names register rm extended
   * by REX.B, rip-relative addressing is exactly mod 0 with rm 5, and an
   * 8-bit displacement is zero-extended.
   */
  lemma ModrmConsumes(regions: seq<Region>, root: u64, ip: u64, size: nat, ao: bool,
                      seg: SegmentOverride, rex: Option<Rex>)
    requires ModulesFit(regions)
    requires ModrmAt(regions, root, ip, size, ao, seg, rex).Ok?
    ensures Fetch(regions, root, ip, size).Ok?
    ensures var m := ModrmAt(regions, root, ip, size, ao, seg, rex).value;
      var modrm := Fetch(regions, root, ip, size).value;
      m.size == size + ModrmLength(modrm, SibAfter(regions, root, ip, size)) &&
      m.reg == RegField(RexR(rex), (modrm / 8) % 8) &&
      (modrm / 64 == 3 <==> m.rm.Reg?) &&
      (m.rm.Reg? ==> m.rm.reg == RegField(RexB(rex), modrm % 8)) &&
      (modrm / 64 == 0 && modrm % 8 == 5 <==> m.rm.RipRel?) &&
      (modrm / 64 == 1 ==> m.rm.Mem? && m.rm.displacement < 0x100)
  {
    var modrm := Fetch(regions, root, ip, size).value;
    var sib := SibAfter(regions, root, ip, size);
    var mode, rmField := modrm / 64, modrm % 8;
    if mode == 0 {
      Mode0Consumes(regions, root, ip, size + 1, rmField, ao, seg, rex);
    } else if mode == 1 {
      Mode1Consumes(regions, root, ip, size + 1, rmField, ao, seg, rex);
    } else if mode == 2 {
      Mode2Consumes(regions, root, ip, size + 1, rmField, ao, seg, rex);
    }
  }

  /** The reg field `read_modrm` returns is 8 or more exactly when REX.R is set. */
  lemma ModrmReg(regions: seq<Region>, root: u64, ip: u64, size: nat, ao: bool, seg: SegmentOverride, rex: Option<Rex>)
    requires ModulesFit(regions)
    requires ModrmAt(regions, root, ip, size, ao, seg, rex).Ok?
    ensures ModrmAt(regions, root, ip, size, ao, seg, rex).value.reg >= 8 <==> RexR(rex)
  {}

  lemma Mode0Consumes(regions: seq<Region>, root: u64, ip: u64, size: nat, rmField: nat, ao: bool,
                      seg: SegmentOverride, rex: Option<Rex>)
    requires ModulesFit(regions) && rmField < 8
    requires Mode0Operand(regions, root, ip, size, rmField, ao, seg, rex).Ok?
    ensures var o := Mode0Operand(regions, root, ip, size, rmField, ao, seg, rex).value;
      var sib := Fetch(regions, root, ip, size);
      o.size == size + (if rmField == 4 then 1 + (if sib.value % 8 == 5 then 4 else 0) else if rmField == 5 then 4 else 0) &&
      !o.rm.Reg? && (o.rm.RipRel? <==> rmField == 5)
  {}

  lemma Mode1Consumes(regions: seq<Region>, root: u64, ip: u64, size: nat, rmField: nat, ao: bool,
                      seg: SegmentOverride, rex: Option<Rex>)
    requires ModulesFit(regions) && rmField < 8
    requires Mode1Operand(regions, root, ip, size, rmField, ao, seg, rex).Ok?
    ensures var o := Mode1Operand(regions, root, ip, size, rmField, ao, seg, rex).value;
      o.size == size + (if rmField == 4 then 2 else 1) && o.rm.Mem? && o.rm.displacement < 0x100
  {}

  lemma Mode2Consumes(regions: seq<Region>, root: u64, ip: u64, size: nat, rmField: nat, ao: bool,
                      seg: SegmentOverride, rex: Option<Rex>)
    requires ModulesFit(regions) && rmField < 8
    requires Mode2Operand(regions, root, ip, size, rmField, ao, seg, rex).Ok?
    ensures var o := Mode2Operand(regions, root, ip, size, rmField, ao, seg, rex).value;
      o.size == size + (if rmField == 4 then 5 else 4) && o.rm.Mem?
  {}

  // ---- The reading methods ----

  /** The four-byte displacement loops of `read_modrm`: `u32::from_le_bytes` of four fetched bytes. */
  method ReadDisplacement32(mmu: MemoryManagementUnit, ip: u64, size: nat) returns (r: Result<u32>)
    requires mmu.Valid()
    ensures r == Displacement(mmu.physical.regions, mmu.pagingTableAddress, ip, size, 4)
  {
    var bytes := new u8[4](_ => 0);
    var read := ReadBytesInto(mmu, ip, size, bytes, 4);
    if read.Err? {
      return Err(read.fault);
    }
    assert bytes[..] == bytes[..4];
    Pow256Table();
    return Ok(FromLe(bytes[..]));
  }

  /** Little-endian zero bytes at the top add nothing. */
  lemma {:induction false} FromLeZeroPadded(bs: seq<u8>, n: nat)
    requires n <= |bs| && forall k | n <= k < |bs| :: bs[k] == 0
    ensures FromLe(bs) == FromLe(bs[..n])
  {
    FromLeAppend(bs[..n], bs[n..]);
    assert bs == bs[..n] + bs[n..];
    FromLeZeros(bs[n..]);
  }

  lemma {:induction false} FromLeZeros(bs: seq<u8>)
    requires forall k | 0 <= k < |bs| :: bs[k] == 0
    ensures FromLe(bs) == 0
  {
    if |bs| > 0 {
      FromLeZeros(bs[1..]);
    }
  }

  /**
   * `read_immediate`: `nbytes` bytes fetched into a zeroed 8-byte buffer and
   * read as a little-endian u64; the size grows by exactly `nbytes`.
   */
  method ReadImmediate(mmu: MemoryManagementUnit, size: nat, ip: u64, nbytes: nat) returns (r: Result<u64>, size': nat)
    requires mmu.Valid() && nbytes <= 8
    ensures r == ImmediateAt(mmu.physical.regions, mmu.pagingTableAddress, ip, size, nbytes)
    ensures r.Ok? ==> size' == size + nbytes
  {
    var bytes := new u8[8](_ => 0);
    var read := ReadBytesInto(mmu, ip, size, bytes, nbytes);
    if read.Err? {
      return Err(read.fault), size;
    }
    FromLeZeroPadded(bytes[..], nbytes);
    assert bytes[..][..nbytes] == bytes[..nbytes];
    Pow256Table();
    return Ok(FromLe(bytes[..])), size + nbytes;
  }

  /** `read_modrm`: the ModR/M byte, then the arm of its mod field (`size` counts the bytes consumed so far). */
  method ReadModrm(mmu: MemoryManagementUnit, size: nat, ip: u64, ao: bool, seg: SegmentOverride, rex: Option<Rex>)
    returns (r: Result<ModrmOperands>)
    requires mmu.Valid()
    ensures r == ModrmAt(mmu.physical.regions, mmu.pagingTableAddress, ip, size, ao, seg, rex)
  {
    var modrm := Fetch(mmu.physical.regions, mmu.pagingTableAddress, ip, size);
    if modrm.Err? {
      return Err(modrm.fault);
    }
    var reg := RegField(RexR(rex), (modrm.value / 8) % 8);
    var rmField := modrm.value % 8;
    var mode := modrm.value / 64;
    var operand: Result<Located>;
    if mode == 0 {
      operand := ReadMode0(mmu, size + 1, ip, rmField, ao, seg, rex);
    } else if mode == 1 {
      operand := ReadMode1(mmu, size + 1, ip, rmField, ao, seg, rex);
    } else if mode == 2 {
      operand := ReadMode2(mmu, size + 1, ip, rmField, ao, seg, rex);
    } else {
      operand := Ok(Located(Reg(RegField(RexB(rex), rmField)), size + 1));
    }
    if operand.Err? {
      return Err(operand.fault);
    }
    return Ok(ModrmOperands(reg, operand.value.rm, operand.value.size));
  }

  /** The mod 0 arm of `read_modrm`. */
  method ReadMode0(mmu: MemoryManagementUnit, size: nat, ip: u64, rmField: nat, ao: bool, seg: SegmentOverride,
                   rex: Option<Rex>) returns (r: Result<Located>)
    requires mmu.Valid() && rmField < 8
    ensures r == Mode0Operand(mmu.physical.regions, mmu.pagingTableAddress, ip, size, rmField, ao, seg, rex)
  {
    if rmField == 4 {
      var sib := Fetch(mmu.physical.regions, mmu.pagingTableAddress, ip, size);
      if sib.Err? {
        return Err(sib.fault);
      }
      if sib.value % 8 == 5 {
        var d := ReadDisplacement32(mmu, ip, size + 1);
        if d.Err? {
          return Err(d.fault);
        }
        return Ok(Located(ParseSibNoBase(sib.value, ao, seg, d.value, rex), size + 5));
      }
      return Ok(Located(ParseSib(sib.value, ao, seg, 0, rex), size + 1));
    } else if rmField == 5 {
      var d := ReadDisplacement32(mmu, ip, size);
      if d.Err? {
        return Err(d.fault);
      }
      return Ok(Located(RipRel(d.value, ao), size + 4));
    }
    return Ok(Located(BaseOperand(rmField, 0, ao, seg, rex), size));
  }

  /** The mod 1 arm of `read_modrm`. */
  method ReadMode1(mmu: MemoryManagementUnit, size: nat, ip: u64, rmField: nat, ao: bool, seg: SegmentOverride,
                   rex: Option<Rex>) returns (r: Result<Located>)
    requires mmu.Valid() && rmField < 8
    ensures r == Mode1Operand(mmu.physical.regions, mmu.pagingTableAddress, ip, size, rmField, ao, seg, rex)
  {
    if rmField == 4 {
      var sib := Fetch(mmu.physical.regions, mmu.pagingTableAddress, ip, size);
      if sib.Err? {
        return Err(sib.fault);
      }
      var d := Fetch(mmu.physical.regions, mmu.pagingTableAddress, ip, size + 1);
      if d.Err? {
        return Err(d.fault);
      }
      return Ok(Located(ParseSib(sib.value, ao, seg, d.value, rex), size + 2));
    }
    var d := Fetch(mmu.physical.regions, mmu.pagingTableAddress, ip, size);
    if d.Err? {
      return Err(d.fault);
    }
    return Ok(Located(BaseOperand(rmField, d.value, ao, seg, rex), size + 1));
  }

  /** The mod 2 arm of `read_modrm`. */
  method ReadMode2(mmu: MemoryManagementUnit, size: nat, ip: u64, rmField: nat, ao: bool, seg: SegmentOverride,
                   rex: Option<Rex>) returns (r: Result<Located>)
    requires mmu.Valid() && rmField < 8
    ensures r == Mode2Operand(mmu.physical.regions, mmu.pagingTableAddress, ip, size, rmField, ao, seg, rex)
  {
    if rmField == 4 {
      var sib := Fetch(mmu.physical.regions, mmu.pagingTableAddress, ip, size);
      if sib.Err? {
        return Err(sib.fault);
      }
      var d := ReadDisplacement32(mmu, ip, size + 1);
      if d.Err? {
        return Err(d.fault);
      }
      return Ok(Located(ParseSib(sib.value, ao, seg, d.value, rex), size + 5));
    }
    var d := ReadDisplacement32(mmu, ip, size);
    if d.Err? {
      return Err(d.fault);
    }
    return Ok(Located(BaseOperand(rmField, d.value, ao, seg, rex), size + 4));
  }
}
