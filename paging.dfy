/**
 * The memory management unit: the canonical-address check, the four-level
 * page walk over 8-byte little-endian entries, and the virtual reads and
 * writes built from single-byte accesses. The walk has the shape of 4-level
 * paging in section 4.5 of volume 3A of the Intel SDM, with only the present
 * bit checked, no permission bits and no TLB.
 */
module Paging {
  import opened Bits
  import opened Interrupts
  import opened Physical

  const FRAME_MASK: u64 := 0x7FFF_FFFF_FFFF_F000
  const INDEX_MASK: u64 := 0x1FF
  const OFFSET_MASK: u64 := 0xFFF

  /** `(virtual_address >> shift) & 0x1FF`: the table index of one level. */
  function TableIndex(va: u64, shift: nat): u64 { And64(Shr64(va, shift), INDEX_MASK) }

  /** `virtual_address & 0xFFF`: the offset within the page. */
  function PageOffset(va: u64): u64 { And64(va, OFFSET_MASK) }

  /** What one entry says: a page fault when bit 0 is clear, else the address in bits 12..62. */
  function EntryTarget(entry: u64, va: u64): Result<u64> {
    if And64(entry, 1) == 0 then Err(PageFault(0, va)) else Ok(And64(entry, FRAME_MASK))
  }

  /** `extract_address`: the entry is the physical 8-byte word at `base + 8 * index` (wrapping). */
  function ExtractAddress(regions: seq<Region>, base: u64, index: u64, va: u64): (r: Result<u64>)
    requires ModulesFit(regions)
    ensures r.Ok? ==> r.value <= FRAME_MASK
  {
    EntryTarget(PhysReadU64(regions, Wrap(base + 8 * index)), va)
  }

  /** The four `extract_address` steps of `translate`, from the root, each stopping at the first fault. */
  function Levels(regions: seq<Region>, root: u64, va: u64): (r: Result<u64>)
    requires ModulesFit(regions)
    ensures r.Ok? ==> r.value <= FRAME_MASK
  {
    match ExtractAddress(regions, root, TableIndex(va, 39), va)
    case Err(e) => Err(e)
    case Ok(level2) =>
      match ExtractAddress(regions, level2, TableIndex(va, 30), va)
      case Err(e) => Err(e)
      case Ok(level3) =>
        match ExtractAddress(regions, level3, TableIndex(va, 21), va)
        case Err(e) => Err(e)
        case Ok(level4) => ExtractAddress(regions, level4, TableIndex(va, 12), va)
  }

  /** `translate`: the canonical check, then the four levels, then the page offset added to the frame. */
  function Translate(regions: seq<Region>, root: u64, va: u64): Result<u64>
    requires ModulesFit(regions)
  {
    match IsCanonical(va)
    case Err(e) => Err(e)
    case Ok(_) =>
      match Levels(regions, root, va)
      case Err(e) => Err(e)
      case Ok(page) => Ok(page + PageOffset(va))
  }

  /** `virtual_address + i`, wrapping: the address of byte `i` of a multi-byte access. */
  function ByteAddress(va: u64, i: nat): u64 { Wrap(va + i) }

  lemma ByteAddressSmall(va: u64, i: nat)
    requires va + i < TWO_64
    ensures ByteAddress(va, i) == va + i
  {
  }

  /** `read_u8`: translate, then a physical read. */
  function VirtRead(regions: seq<Region>, root: u64, va: u64): Result<u8>
    requires ModulesFit(regions)
  {
    match Translate(regions, root, va)
    case Err(e) => Err(e)
    case Ok(pa) => Ok(PhysRead(regions, pa))
  }

  /** The single-byte reads at `va`, `va + 1`, ..., `va + n - 1`. */
  function ByteReads(regions: seq<Region>, root: u64, va: u64, n: nat): (r: seq<Result<u8>>)
    requires ModulesFit(regions)
    ensures |r| == n
  {
    if n == 0 then [] else ByteReads(regions, root, va, n - 1) + [VirtRead(regions, root, ByteAddress(va, n - 1))]
  }

  /** `std::array::try_from_fn` on byte results: the first error in index order, or all the bytes. */
  function TryCollect(rs: seq<Result<u8>>): Result<seq<u8>> {
    if |rs| == 0 then Ok([])
    else
      match rs[0]
      case Err(e) => Err(e)
      case Ok(b) =>
        match TryCollect(rs[1..])
        case Err(e) => Err(e)
        case Ok(bs) => Ok([b] + bs)
  }

  /** `try_from_fn(|i| read_u8(va + i))` for `n` bytes. */
  function VirtReadBytes(regions: seq<Region>, root: u64, va: u64, n: nat): Result<seq<u8>>
    requires ModulesFit(regions)
  {
    TryCollect(ByteReads(regions, root, va, n))
  }

  /** `read_u16`, `read_u32`, `read_u64`: `n` bytes assembled little-endian. */
  function VirtReadN(regions: seq<Region>, root: u64, va: u64, n: nat): Result<nat>
    requires ModulesFit(regions)
  {
    match VirtReadBytes(regions, root, va, n)
    case Err(e) => Err(e)
    case Ok(bs) => Ok(FromLe(bs))
  }

  /** `write_u8`: translate, then a physical write; a fault leaves memory as it was. */
  function VirtWrite(regions: seq<Region>, root: u64, va: u64, value: u8): (r: Result<seq<Region>>)
    requires ModulesFit(regions)
    ensures r.Ok? ==> ModulesFit(r.value) && |r.value| == |regions|
  {
    match Translate(regions, root, va)
    case Err(e) => Err(e)
    case Ok(pa) => Ok(PhysWrite(regions, pa, value))
  }

  /**
   * `try_for_each(|(i, b)| write_u8(va + i, b))` from byte `i` on: each byte
   * is translated in the memory the earlier bytes left, and the walk stops at
   * the first fault, keeping the bytes already written.
   */
  function WriteFrom(regions: seq<Region>, root: u64, va: u64, bytes: seq<u8>, i: nat): (r: (seq<Region>, Result<()>))
    requires ModulesFit(regions) && i <= |bytes|
    ensures ModulesFit(r.0) && |r.0| == |regions|
    decreases |bytes| - i
  {
    if i == |bytes| then (regions, Ok(()))
    else
      match VirtWrite(regions, root, ByteAddress(va, i), bytes[i])
      case Err(e) => (regions, Err(e))
      case Ok(next) => WriteFrom(next, root, va, bytes, i + 1)
  }

  /** `MemoryManagementUnit`: the physical unit it owns and the page-table root (`cr3`). */
  class MemoryManagementUnit {
    const physical: PhysicalMemoryManagementUnit
    var pagingTableAddress: u64

    ghost predicate Valid()
      reads this, physical
    {
      physical.Valid()
    }

    /** `new`: the root starts at physical address 0. */
    constructor(physical: PhysicalMemoryManagementUnit)
      requires physical.Valid()
      ensures this.physical == physical && pagingTableAddress == 0 && Valid()
    {
      this.physical := physical;
      pagingTableAddress := 0;
    }

    /** `write_u8`. */
    method WriteU8(va: u64, value: u8) returns (r: Result<()>)
      requires Valid()
      modifies physical
      ensures Valid()
      ensures match VirtWrite(old(physical.regions), pagingTableAddress, va, value)
        case Err(e) => r == Err(e) && physical.regions == old(physical.regions)
        case Ok(next) => r == Ok(()) && physical.regions == next
    {
      var t := Translate(physical.regions, pagingTableAddress, va);
      if t.Err? {
        return Err(t.fault);
      }
      physical.WriteU8(t.value, value);
      return Ok(());
    }

    /** The byte loop shared by `write_u16`, `write_u32` and `write_u64`. */
    method WriteBytes(va: u64, bytes: seq<u8>) returns (r: Result<()>)
      requires Valid()
      modifies physical
      ensures Valid()
      ensures (physical.regions, r) == WriteFrom(old(physical.regions), pagingTableAddress, va, bytes, 0)
    {
      var i := 0;
      while i < |bytes|
        invariant 0 <= i <= |bytes|
        invariant Valid()
        invariant WriteFrom(physical.regions, pagingTableAddress, va, bytes, i) ==
          WriteFrom(old(physical.regions), pagingTableAddress, va, bytes, 0)
      {
        var w := WriteU8(ByteAddress(va, i), bytes[i]);
        if w.Err? {
          return w;
        }
        i := i + 1;
      }
      return Ok(());
    }

    method WriteU16(va: u64, value: u16) returns (r: Result<()>)
      requires Valid()
      modifies physical
      ensures Valid()
      ensures (physical.regions, r) == WriteFrom(old(physical.regions), pagingTableAddress, va, ToLe(value, 2), 0)
    {
      r := WriteBytes(va, ToLe(value, 2));
    }

    method WriteU32(va: u64, value: u32) returns (r: Result<()>)
      requires Valid()
      modifies physical
      ensures Valid()
      ensures (physical.regions, r) == WriteFrom(old(physical.regions), pagingTableAddress, va, ToLe(value, 4), 0)
    {
      r := WriteBytes(va, ToLe(value, 4));
    }

    method WriteU64(va: u64, value: u64) returns (r: Result<()>)
      requires Valid()
      modifies physical
      ensures Valid()
      ensures (physical.regions, r) == WriteFrom(old(physical.regions), pagingTableAddress, va, ToLe(value, 8), 0)
    {
      r := WriteBytes(va, ToLe(value, 8));
    }

    /** `swi4`: later walks start from the new root; memory is untouched. */
    method Swi4(address: u64)
      modifies this
      ensures pagingTableAddress == address
    {
      pagingTableAddress := address;
    }
  }

  // ---- The walk, bit by bit ----

  lemma Pow2Of9()
    ensures Pow2(9) == 0x200
  {
    Pow2Of8();
    assert Pow2(9) == 2 * Pow2(8);
  }

  /** Bits `shift + 8` down to `shift` of an address. */
  function Field(va: u64, shift: nat): nat { (va / Pow2(shift)) % 0x200 }

  /** Bits 62..12 of an entry, in place. */
  function FrameOf(entry: u64): nat { 0x1000 * ((entry / 0x1000) % 0x8_0000_0000_0000) }

  /** The index of the level that shifts by `shift` is bits `shift + 8` down to `shift` of the address. */
  lemma TableIndexIsField(va: u64, shift: nat)
    requires shift < 64
    ensures TableIndex(va, shift) == Field(va, shift)
  {
    Pow2Of9();
    AndLowMask(Shr64(va, shift), 9);
  }

  /** The offset is bits 11..0 of the address. */
  lemma PageOffsetIsField(va: u64)
    ensures PageOffset(va) == va % 0x1000
  {
    Pow2Of12();
    AndLowMask(va, 12);
  }

  /** An entry is present iff bit 0 is set, and a missing entry faults with error code 0 and cr2 = the address. */
  lemma EntryPresence(entry: u64, va: u64)
    ensures EntryTarget(entry, va).Err? <==> entry % 2 == 0
    ensures EntryTarget(entry, va).Err? ==> EntryTarget(entry, va).fault == PageFault(0, va)
  {
    assert Pow2(1) == 2;
    AndLowMask(entry, 1);
  }

  /** A present entry names the address held in its bits 62..12. */
  lemma EntryFrame(entry: u64, va: u64)
    requires entry % 2 == 1
    ensures EntryTarget(entry, va).Ok? && EntryTarget(entry, va).value == FrameOf(entry)
  {
    EntryPresence(entry, va);
    Pow2Of12();
    Pow2Of63();
    AndMaskRange(entry, 12, 63);
    ModSplit(entry, 0x1000, 0x8_0000_0000_0000);
  }

  /** That address is on a 4 KiB boundary and at most the frame mask. */
  lemma FrameBounds(entry: u64)
    ensures FrameOf(entry) % 0x1000 == 0 && FrameOf(entry) <= FRAME_MASK
  {
    var f := (entry / 0x1000) % 0x8_0000_0000_0000;
    DivModUnique(0x1000 * f, 0x1000, f, 0);
  }

  /** Bits 11..1 and bit 63 of an entry never change what it says. */
  lemma EntryIgnoresFlagBits(e1: u64, e2: u64, va: u64)
    requires e1 % 2 == e2 % 2
    requires (e1 / 0x1000) % 0x8_0000_0000_0000 == (e2 / 0x1000) % 0x8_0000_0000_0000
    ensures EntryTarget(e1, va) == EntryTarget(e2, va)
  {
    EntryPresence(e1, va);
    EntryPresence(e2, va);
    if e1 % 2 == 1 {
      EntryFrame(e1, va);
      EntryFrame(e2, va);
    }
  }

  /** An address in the non-canonical hole faults with GeneralProtection whatever memory holds. */
  lemma NonCanonicalFaults(regions: seq<Region>, root: u64, va: u64, value: u8)
    requires ModulesFit(regions)
    requires 0x8000_0000_0000 <= va < 0xFFFF_8000_0000_0000
    ensures Translate(regions, root, va) == Err(GeneralProtection)
    ensures VirtRead(regions, root, va) == Err(GeneralProtection)
    ensures VirtWrite(regions, root, va, value) == Err(GeneralProtection)
  {
    IsCanonicalIffSignExtended(va);
    SignExtendedHalves(va);
  }

  /** One level of the reference walk, stated with arithmetic on the entry rather than masks. */
  function Step(regions: seq<Region>, table: u64, va: u64, shift: nat): Result<u64>
    requires ModulesFit(regions)
  {
    var entry := PhysReadU64(regions, Wrap(table + 8 * Field(va, shift)));
    if entry % 2 == 0 then Err(PageFault(0, va))
    else FrameBounds(entry); Ok(FrameOf(entry))
  }

  /**
   * A reference walk over any list of levels: each level reads the entry at
   * `table + 8 * index` and continues from the address it names.
   */
  function Walk(regions: seq<Region>, table: u64, va: u64, shifts: seq<nat>): Result<u64>
    requires ModulesFit(regions)
    decreases |shifts|
  {
    if |shifts| == 0 then Ok(table)
    else
      match Step(regions, table, va, shifts[0])
      case Err(e) => Err(e)
      case Ok(next) => Walk(regions, next, va, shifts[1..])
  }

  /** One level of `translate` is one step of the reference walk. */
  lemma ExtractIsStep(regions: seq<Region>, table: u64, va: u64, shift: nat)
    requires ModulesFit(regions) && shift < 64
    ensures ExtractAddress(regions, table, TableIndex(va, shift), va) == Step(regions, table, va, shift)
  {
    TableIndexIsField(va, shift);
    var entry := PhysReadU64(regions, Wrap(table + 8 * Field(va, shift)));
    EntryPresence(entry, va);
    if entry % 2 == 1 {
      EntryFrame(entry, va);
    }
  }

  /** The last three levels of the reference walk. */
  lemma WalkTail(regions: seq<Region>, table: u64, va: u64)
    requires ModulesFit(regions)
    ensures Walk(regions, table, va, [30, 21, 12]) ==
      match Step(regions, table, va, 30)
      case Err(e) => Err(e)
      case Ok(l3) =>
        match Step(regions, l3, va, 21)
        case Err(e) => Err(e)
        case Ok(l4) => Step(regions, l4, va, 12)
  {
    assert [30, 21, 12][1..] == [21, 12];
    assert [21, 12][1..] == [12];
    assert [12][1..] == [];
    var s := Step(regions, table, va, 30);
    if s.Ok? {
      var t := Step(regions, s.value, va, 21);
      if t.Ok? {
        var u := Step(regions, t.value, va, 12);
        assert Walk(regions, t.value, va, [12]) == match u case Err(e) => Err(e) case Ok(p) => Walk(regions, p, va, []);
      }
    }
  }

  /** The four levels of `translate` are the reference walk over bits 47..39, 38..30, 29..21 and 20..12. */
  lemma LevelsAreWalk(regions: seq<Region>, root: u64, va: u64)
    requires ModulesFit(regions)
    ensures Levels(regions, root, va) == Walk(regions, root, va, [39, 30, 21, 12])
  {
    assert [39, 30, 21, 12][1..] == [30, 21, 12];
    ExtractIsStep(regions, root, va, 39);
    var s := ExtractAddress(regions, root, TableIndex(va, 39), va);
    if s.Ok? {
      WalkTail(regions, s.value, va);
      ExtractIsStep(regions, s.value, va, 30);
      var t := ExtractAddress(regions, s.value, TableIndex(va, 30), va);
      if t.Ok? {
        ExtractIsStep(regions, t.value, va, 21);
        var u := ExtractAddress(regions, t.value, TableIndex(va, 21), va);
        if u.Ok? {
          ExtractIsStep(regions, u.value, va, 12);
        }
      }
    }
  }

  /**
   * `translate` is the canonical check, then the reference walk from the root
   * over the four levels, plus bits 11..0 of the address.
   */
  lemma TranslateIsWalk(regions: seq<Region>, root: u64, va: u64)
    requires ModulesFit(regions)
    ensures IsCanonical(va).Err? ==> Translate(regions, root, va) == Err(GeneralProtection)
    ensures IsCanonical(va).Ok? && Walk(regions, root, va, [39, 30, 21, 12]).Err? ==>
      Translate(regions, root, va) == Err(Walk(regions, root, va, [39, 30, 21, 12]).fault)
    ensures IsCanonical(va).Ok? && Walk(regions, root, va, [39, 30, 21, 12]).Ok? ==>
      Translate(regions, root, va).Ok? &&
      Translate(regions, root, va).value == Walk(regions, root, va, [39, 30, 21, 12]).value + va % 0x1000
  {
    PageOffsetIsField(va);
    LevelsAreWalk(regions, root, va);
  }

  /** The walk fails only with a page fault for the walked address, and any level lands on a page boundary. */
  lemma {:induction false} WalkOutcome(regions: seq<Region>, table: u64, va: u64, shifts: seq<nat>)
    requires ModulesFit(regions) && |shifts| > 0
    ensures Walk(regions, table, va, shifts).Err? ==> Walk(regions, table, va, shifts).fault == PageFault(0, va)
    ensures Walk(regions, table, va, shifts).Ok? ==>
      Walk(regions, table, va, shifts).value % 0x1000 == 0 &&
      Walk(regions, table, va, shifts).value <= FRAME_MASK
    decreases |shifts|
  {
    var s := Step(regions, table, va, shifts[0]);
    if s.Ok? {
      var entry := PhysReadU64(regions, Wrap(table + 8 * Field(va, shifts[0])));
      FrameBounds(entry);
      if |shifts| > 1 {
        WalkOutcome(regions, s.value, va, shifts[1..]);
      }
    }
  }

  /** A page-aligned address at most the frame mask plus a page offset keeps that offset. */
  lemma AlignedPlusOffset(page: nat, va: u64, pa: int)
    requires page % 0x1000 == 0 && page <= FRAME_MASK && pa == page + va % 0x1000
    ensures pa % 0x1000 == va % 0x1000 && pa < 0x8000_0000_0000_0000
  {
    DivModUnique(pa, 0x1000, page / 0x1000, va % 0x1000);
  }

  /** A successful translation keeps the page offset and lands below 2^63. */
  lemma TranslateKeepsOffset(regions: seq<Region>, root: u64, va: u64)
    requires ModulesFit(regions)
    ensures Translate(regions, root, va).Ok? ==>
      Translate(regions, root, va).value % 0x1000 == va % 0x1000 &&
      Translate(regions, root, va).value < 0x8000_0000_0000_0000
  {
    TranslateIsWalk(regions, root, va);
    var w := Walk(regions, root, va, [39, 30, 21, 12]);
    if Translate(regions, root, va).Ok? {
      WalkOutcome(regions, root, va, [39, 30, 21, 12]);
      AlignedPlusOffset(w.value, va, Translate(regions, root, va).value);
    }
  }

  /** A failed translation is GeneralProtection for a non-canonical address and otherwise a page fault with cr2 = the address. */
  lemma TranslateFaults(regions: seq<Region>, root: u64, va: u64)
    requires ModulesFit(regions)
    ensures Translate(regions, root, va).Err? ==>
      Translate(regions, root, va).fault == (if IsCanonical(va).Ok? then PageFault(0, va) else GeneralProtection)
  {
    TranslateIsWalk(regions, root, va);
    WalkOutcome(regions, root, va, [39, 30, 21, 12]);
  }

  lemma SmallQuotient(a: nat, d: nat)
    requires a < d
    ensures a / d == 0
  {
    DivModUnique(a, d, 0, a);
  }

  /** In the first page every level's index is 0, so a present entry at `table` leads to the address it names. */
  lemma FirstPageStep(regions: seq<Region>, table: u64, va: u64, shift: nat)
    requires ModulesFit(regions)
    requires va < 0x1000 && 12 <= shift < 64
    requires PhysReadU64(regions, table) % 2 == 1
    ensures ExtractAddress(regions, table, TableIndex(va, shift), va).Ok?
    ensures ExtractAddress(regions, table, TableIndex(va, shift), va).value == FrameOf(PhysReadU64(regions, table))
  {
    FirstPageIndex(va, shift);
    assert Wrap(table + 8 * TableIndex(va, shift)) == table;
    EntryFrame(PhysReadU64(regions, table), va);
  }

  lemma FirstPageIndex(va: u64, shift: nat)
    requires va < 0x1000 && 12 <= shift < 64
    ensures TableIndex(va, shift) == 0
  {
    TableIndexIsField(va, shift);
    Pow2Of12();
    PowMono(12, shift);
    SmallQuotient(va, Pow2(shift));
  }

  /**
   * Four present entries 0x1001, 0x2001, 0x3001 and 0x4001 at physical 0,
   * 0x1000, 0x2000 and 0x3000 map virtual address k in the first page to
   * physical 0x4000 + k, with the root at 0.
   */
  lemma ChainedTablesExample(regions: seq<Region>, va: u64)
    requires ModulesFit(regions)
    requires PhysReadU64(regions, 0) == 0x1001 && PhysReadU64(regions, 0x1000) == 0x2001
    requires PhysReadU64(regions, 0x2000) == 0x3001 && PhysReadU64(regions, 0x3000) == 0x4001
    requires va < 0x1000
    ensures Translate(regions, 0, va).Ok? && Translate(regions, 0, va).value == 0x4000 + va
  {
    LowHalfIsCanonical(va);
    FirstPageLevels(regions, va);
    TranslateOfLevels(regions, 0, va, 0x4000);
    DivModUnique(va, 0x1000, 0, va);
  }

  lemma LowHalfIsCanonical(va: u64)
    requires va < 0x8000_0000_0000
    ensures IsCanonical(va).Ok?
  {
    HighBitsIsQuotient(va);
  }

  lemma TranslateOfLevels(regions: seq<Region>, root: u64, va: u64, page: u64)
    requires ModulesFit(regions)
    requires IsCanonical(va).Ok? && Levels(regions, root, va).Ok? && Levels(regions, root, va).value == page
    ensures Translate(regions, root, va).Ok?
    ensures Translate(regions, root, va).value == page + va % 0x1000
  {
    PageOffsetIsField(va);
  }

  lemma FirstPageLevels(regions: seq<Region>, va: u64)
    requires ModulesFit(regions)
    requires PhysReadU64(regions, 0) == 0x1001 && PhysReadU64(regions, 0x1000) == 0x2001
    requires PhysReadU64(regions, 0x2000) == 0x3001 && PhysReadU64(regions, 0x3000) == 0x4001
    requires va < 0x1000
    ensures Levels(regions, 0, va).Ok? && Levels(regions, 0, va).value == 0x4000
  {
    FirstPageStep(regions, 0, va, 39);
    FrameOfPresent(PhysReadU64(regions, 0), 1);
    FirstPageStep(regions, 0x1000, va, 30);
    FrameOfPresent(PhysReadU64(regions, 0x1000), 2);
    FirstPageStep(regions, 0x2000, va, 21);
    FrameOfPresent(PhysReadU64(regions, 0x2000), 3);
    FirstPageStep(regions, 0x3000, va, 12);
    FrameOfPresent(PhysReadU64(regions, 0x3000), 4);
  }

  /** A present entry `0x1000 * k + 1` names page `k`. */
  lemma FrameOfPresent(entry: u64, k: nat)
    requires entry == 0x1000 * k + 1 && k < 0x8_0000_0000_0000
    ensures FrameOf(entry) == 0x1000 * k
  {
    DivModUnique(entry, 0x1000, k, 1);
    DivModUnique(k, 0x8_0000_0000_0000, 0, k);
  }

  // ---- Multi-byte accesses ----

  /** Entry `i` of the byte reads is the single-byte read at `va + i`. */
  lemma {:induction false} ByteReadsAt(regions: seq<Region>, root: u64, va: u64, n: nat, i: nat)
    requires ModulesFit(regions) && i < n
    ensures ByteReads(regions, root, va, n)[i] == VirtRead(regions, root, ByteAddress(va, i))
  {
    if i < n - 1 {
      ByteReadsAt(regions, root, va, n - 1, i);
    }
  }

  /** Collecting succeeds iff every result is a byte, and then yields those bytes in order. */
  lemma {:induction false} TryCollectOk(rs: seq<Result<u8>>)
    ensures TryCollect(rs).Ok? <==> forall i | 0 <= i < |rs| :: rs[i].Ok?
    ensures TryCollect(rs).Ok? ==>
      |TryCollect(rs).value| == |rs| && forall i | 0 <= i < |rs| :: TryCollect(rs).value[i] == rs[i].value
  {
    if |rs| > 0 {
      TryCollectOk(rs[1..]);
      assert forall i | 1 <= i < |rs| :: rs[i] == rs[1..][i - 1];
    }
  }

  /** A failed collection reports the error at the first index that holds one. */
  lemma {:induction false} TryCollectFirstError(rs: seq<Result<u8>>)
    ensures TryCollect(rs).Err? ==>
      exists k | 0 <= k < |rs| :: (forall i | 0 <= i < k :: rs[i].Ok?) && rs[k] == Err(TryCollect(rs).fault)
  {
    if |rs| > 0 && rs[0].Ok? {
      TryCollectFirstError(rs[1..]);
      if TryCollect(rs).Err? {
        var k :| 0 <= k < |rs| - 1 && (forall i | 0 <= i < k :: rs[1..][i].Ok?) && rs[1..][k] == Err(TryCollect(rs).fault);
        assert forall i | 1 <= i < k + 1 :: rs[i] == rs[1..][i - 1];
        assert rs[k + 1] == rs[1..][k];
      }
    }
  }

  /** `n` bytes read iff each of the `n` byte addresses translates, and byte `i` is the single-byte read at `va + i`. */
  lemma VirtReadBytesOk(regions: seq<Region>, root: u64, va: u64, n: nat)
    requires ModulesFit(regions)
    ensures VirtReadBytes(regions, root, va, n).Ok? <==> forall i | 0 <= i < n :: VirtRead(regions, root, ByteAddress(va, i)).Ok?
    ensures VirtReadBytes(regions, root, va, n).Ok? ==>
      |VirtReadBytes(regions, root, va, n).value| == n &&
      forall i | 0 <= i < n :: VirtReadBytes(regions, root, va, n).value[i] == VirtRead(regions, root, ByteAddress(va, i)).value
  {
    var rs := ByteReads(regions, root, va, n);
    TryCollectOk(rs);
    forall i | 0 <= i < n
      ensures rs[i] == VirtRead(regions, root, ByteAddress(va, i))
    {
      ByteReadsAt(regions, root, va, n, i);
    }
  }

  /** A failed read of `n` bytes reports the fault of the first byte address that does not translate. */
  lemma VirtReadBytesFirstFault(regions: seq<Region>, root: u64, va: u64, n: nat)
    requires ModulesFit(regions)
    ensures VirtReadBytes(regions, root, va, n).Err? ==>
      exists k | 0 <= k < n ::
        (forall i | 0 <= i < k :: VirtRead(regions, root, ByteAddress(va, i)).Ok?) &&
        VirtRead(regions, root, ByteAddress(va, k)) == Err(VirtReadBytes(regions, root, va, n).fault)
  {
    var rs := ByteReads(regions, root, va, n);
    TryCollectFirstError(rs);
    forall i | 0 <= i < n
      ensures rs[i] == VirtRead(regions, root, ByteAddress(va, i))
    {
      ByteReadsAt(regions, root, va, n, i);
    }
  }

  /** A read of `n` bytes returns the value whose `n` little-endian bytes are the bytes read. */
  lemma VirtReadNValue(regions: seq<Region>, root: u64, va: u64, n: nat)
    requires ModulesFit(regions)
    ensures VirtReadN(regions, root, va, n).Ok? <==> VirtReadBytes(regions, root, va, n).Ok?
    ensures VirtReadN(regions, root, va, n).Ok? ==>
      VirtReadN(regions, root, va, n).value < Pow256(n) &&
      ToLe(VirtReadN(regions, root, va, n).value, n) == VirtReadBytes(regions, root, va, n).value
  {
    VirtReadBytesOk(regions, root, va, n);
    if VirtReadBytes(regions, root, va, n).Ok? {
      ToLeFromLe(VirtReadBytes(regions, root, va, n).value);
    }
  }

  /**
   * A multi-byte write that faults at byte `k` has already written bytes
   * `0..k-1`: the memory it leaves is that of the successful write of the
   * first `k` bytes, and byte `k` faults in that memory.
   */
  lemma {:induction false} WriteFromFault(regions: seq<Region>, root: u64, va: u64, bytes: seq<u8>, i: nat)
    requires ModulesFit(regions) && i <= |bytes|
    ensures var (final, r) := WriteFrom(regions, root, va, bytes, i);
      r.Err? ==>
        exists k | i <= k < |bytes| ::
          WriteFrom(regions, root, va, bytes[..k], i) == (final, Ok(())) &&
          VirtWrite(final, root, ByteAddress(va, k), bytes[k]) == Err(r.fault)
    decreases |bytes| - i
  {
    if i < |bytes| {
      var step := VirtWrite(regions, root, ByteAddress(va, i), bytes[i]);
      if step.Err? {
        PrefixDone(regions, root, va, bytes, i);
      } else {
        WriteFromFault(step.value, root, va, bytes, i + 1);
        var (final, r) := WriteFrom(regions, root, va, bytes, i);
        if r.Err? {
          var k :| i + 1 <= k < |bytes| &&
            WriteFrom(step.value, root, va, bytes[..k], i + 1) == (final, Ok(())) &&
            VirtWrite(final, root, ByteAddress(va, k), bytes[k]) == Err(r.fault);
          PrefixStep(regions, root, va, bytes, i, k);
        }
      }
    }
  }

  lemma PrefixDone(regions: seq<Region>, root: u64, va: u64, bytes: seq<u8>, i: nat)
    requires ModulesFit(regions) && i <= |bytes|
    ensures WriteFrom(regions, root, va, bytes[..i], i) == (regions, Ok(()))
  {
    assert |bytes[..i]| == i;
  }

  lemma PrefixStep(regions: seq<Region>, root: u64, va: u64, bytes: seq<u8>, i: nat, k: nat)
    requires ModulesFit(regions) && i < k <= |bytes|
    requires VirtWrite(regions, root, ByteAddress(va, i), bytes[i]).Ok?
    ensures WriteFrom(regions, root, va, bytes[..k], i) ==
      WriteFrom(VirtWrite(regions, root, ByteAddress(va, i), bytes[i]).value, root, va, bytes[..k], i + 1)
  {
    assert bytes[..k][i] == bytes[i];
  }

  /** A one-byte `WriteFrom` is `write_u8`. */
  lemma WriteFromOne(regions: seq<Region>, root: u64, va: u64, value: nat)
    requires ModulesFit(regions) && value < 0x100
    ensures WriteFrom(regions, root, va, ToLe(value, 1), 0) ==
      match VirtWrite(regions, root, va, value)
      case Err(e) => (regions, Err(e))
      case Ok(next) => (next, Ok(()))
  {
    assert ToLe(value, 1) == [value];
    assert ByteAddress(va, 0) == va;
  }

  /** After a single-byte write, the translated physical byte holds the value when RAM serves it. */
  lemma VirtWriteThenPhysRead(regions: seq<Region>, root: u64, va: u64, value: u8)
    requires ModulesFit(regions)
    requires Translate(regions, root, va).Ok?
    ensures VirtWrite(regions, root, va, value).Ok?
    ensures var pa := Translate(regions, root, va).value;
      PhysRead(VirtWrite(regions, root, va, value).value, pa) == (if IsRam(regions, pa) then value else PhysRead(regions, pa))
  {
    var pa := Translate(regions, root, va).value;
    PhysReadAfterWrite(regions, pa, value, pa);
  }

  // ---- Fetch runs ----

  /** Adding to a wrapped sum is adding to the sum. */
  lemma WrapShift(a: nat, b: nat)
    ensures Wrap(Wrap(a) + b) == Wrap(a + b)
  {
    ModSplitSum(a, b);
    DivModUnique(Wrap(a) + b, TWO_64, (a % TWO_64 + b) / TWO_64, Wrap(a + b));
  }

  lemma ModSplitSum(a: nat, b: nat)
    ensures Wrap(a) + b == ((a % TWO_64 + b) / TWO_64) * TWO_64 + Wrap(a + b)
  {
    var q := a / TWO_64;
    assert a == q * TWO_64 + a % TWO_64;
    var s := a % TWO_64 + b;
    assert s == (s / TWO_64) * TWO_64 + s % TWO_64;
    DivModUnique(a + b, TWO_64, q + s / TWO_64, s % TWO_64);
  }

  /**
   * The number of consecutive canonical addresses from `va` upward, with the
   * wrap from the top of the upper half to 0 counted: a successful read
   * uses one of them up.
   */
  function CanonicalRun(va: u64): nat {
    if va < 0x8000_0000_0000 then 0x8000_0000_0000 - va
    else if va >= 0xFFFF_8000_0000_0000 then TWO_64 - va + 0x8000_0000_0000
    else 0
  }

  /** A byte that can be read lies in the canonical run, and the next address has one address less left. */
  lemma ReadShrinksRun(regions: seq<Region>, root: u64, va: u64)
    requires ModulesFit(regions) && VirtRead(regions, root, va).Ok?
    ensures CanonicalRun(va) >= 1 && CanonicalRun(Wrap(va + 1)) == CanonicalRun(va) - 1
  {
    assert Translate(regions, root, va).Ok?;
    CanonicalRunStep(va);
  }

  lemma CanonicalRunStep(va: u64)
    requires IsCanonical(va).Ok?
    ensures CanonicalRun(va) >= 1 && CanonicalRun(Wrap(va + 1)) == CanonicalRun(va) - 1
  {
    HighBitsIsQuotient(va);
    QuotientHalves(va);
    RunStepInHalves(va);
  }

  lemma RunStepInHalves(va: u64)
    requires va < 0x8000_0000_0000 || va >= 0xFFFF_8000_0000_0000
    ensures CanonicalRun(va) >= 1 && CanonicalRun(Wrap(va + 1)) == CanonicalRun(va) - 1
  {
    if va == TWO_64 - 1 {
      assert Wrap(va + 1) == 0;
    } else {
      assert Wrap(va + 1) == va + 1;
    }
  }

  /** A read of `n` bytes whose bytes before `i` translate and whose byte `i` does not fails with the fault of byte `i`. */
  lemma VirtReadBytesFaultAt(regions: seq<Region>, root: u64, va: u64, n: nat, i: nat)
    requires ModulesFit(regions) && i < n
    requires forall k | 0 <= k < i :: VirtRead(regions, root, ByteAddress(va, k)).Ok?
    requires VirtRead(regions, root, ByteAddress(va, i)).Err?
    ensures VirtReadBytes(regions, root, va, n) == Err(VirtRead(regions, root, ByteAddress(va, i)).fault)
  {
    VirtReadBytesOk(regions, root, va, n);
    VirtReadBytesFirstFault(regions, root, va, n);
    var k :| 0 <= k < n &&
      (forall j | 0 <= j < k :: VirtRead(regions, root, ByteAddress(va, j)).Ok?) &&
      VirtRead(regions, root, ByteAddress(va, k)) == Err(VirtReadBytes(regions, root, va, n).fault);
    assert k == i;
  }

  /** When byte `i` at `va + i` reads as `bs[i]` for each `i < n`, the `n`-byte read yields `bs`. */
  lemma {:induction false} VirtReadBytesOf(regions: seq<Region>, root: u64, va: u64, bs: seq<u8>)
    requires ModulesFit(regions)
    requires forall i {:trigger ByteAddress(va, i)} | 0 <= i < |bs| :: VirtRead(regions, root, ByteAddress(va, i)) == Ok(bs[i])
    ensures VirtReadBytes(regions, root, va, |bs|) == Ok(bs)
  {
    if bs == [] {
      assert ByteReads(regions, root, va, 0) == [];
    } else {
      var front := bs[..|bs| - 1];
      assert bs == front + [bs[|front|]];
      assert forall i | 0 <= i < |front| :: front[i] == bs[i];
      VirtReadBytesOf(regions, root, va, front);
      VirtReadBytesStep(regions, root, va, |front|);
    }
  }

  /** The same, for a run of addresses that does not wrap past the top of the address space. */
  lemma VirtReadBytesOfRun(regions: seq<Region>, root: u64, va: u64, bs: seq<u8>)
    requires ModulesFit(regions) && va + |bs| <= TWO_64
    requires forall i | 0 <= i < |bs| :: VirtRead(regions, root, va + i) == Ok(bs[i])
    ensures VirtReadBytes(regions, root, va, |bs|) == Ok(bs)
  {
    forall i | 0 <= i < |bs|
      ensures VirtRead(regions, root, ByteAddress(va, i)) == Ok(bs[i])
    {
      var a: u64 := va + i;
      ByteAddressSmall(va, i);
      assert VirtRead(regions, root, a) == Ok(bs[i]);
    }
    VirtReadBytesOf(regions, root, va, bs);
  }

  /** A successful read of `i` bytes followed by a successful read of byte `i` is the read of `i + 1` bytes. */
  lemma VirtReadBytesStep(regions: seq<Region>, root: u64, va: u64, i: nat)
    requires ModulesFit(regions) && VirtReadBytes(regions, root, va, i).Ok?
    requires VirtRead(regions, root, ByteAddress(va, i)).Ok?
    ensures VirtReadBytes(regions, root, va, i + 1) ==
      Ok(VirtReadBytes(regions, root, va, i).value + [VirtRead(regions, root, ByteAddress(va, i)).value])
  {
    TryCollectSnoc(ByteReads(regions, root, va, i), VirtRead(regions, root, ByteAddress(va, i)));
  }

  lemma {:induction false} TryCollectSnoc(rs: seq<Result<u8>>, last: Result<u8>)
    requires TryCollect(rs).Ok? && last.Ok?
    ensures TryCollect(rs + [last]) == Ok(TryCollect(rs).value + [last.value])
  {
    if |rs| > 0 {
      assert (rs + [last])[1..] == rs[1..] + [last];
      TryCollectSnoc(rs[1..], last);
      var tail := TryCollect(rs[1..]).value;
      assert (rs + [last])[0] == rs[0];
      assert TryCollect(rs).value == [rs[0].value] + tail;
      assert [rs[0].value] + (tail + [last.value]) == ([rs[0].value] + tail) + [last.value];
    } else {
      var one := rs + [last];
      assert one[0] == last && one[1..] == [];
      assert TryCollect(one[1..]) == Ok([]);
      assert TryCollect(one) == Ok([last.value] + []);
      assert TryCollect(rs) == Ok([]);
      assert [last.value] + [] == [] + [last.value];
    }
  }

  /** A successful read of `i` bytes followed by a fault at byte `i` makes every longer read fail with that fault. */
  lemma VirtReadBytesFaultAfter(regions: seq<Region>, root: u64, va: u64, n: nat, i: nat)
    requires ModulesFit(regions) && i < n && VirtReadBytes(regions, root, va, i).Ok?
    requires VirtRead(regions, root, ByteAddress(va, i)).Err?
    ensures VirtReadBytes(regions, root, va, n) == Err(VirtRead(regions, root, ByteAddress(va, i)).fault)
  {
    VirtReadBytesOk(regions, root, va, i);
    VirtReadBytesFaultAt(regions, root, va, n, i);
  }

  // ---- Byte-by-byte reads into a buffer ----

  /** Reading the bytes one by one from `ip + size + i`: the `n`-byte read at `ip + size`. */
  method ReadBytesInto(mmu: MemoryManagementUnit, ip: u64, size: nat, buffer: array<u8>, n: nat)
    returns (r: Result<()>)
    requires mmu.Valid() && n <= buffer.Length
    modifies buffer
    ensures var read := VirtReadBytes(mmu.physical.regions, mmu.pagingTableAddress, Wrap(ip + size), n);
      (read.Err? ==> r == Err(read.fault)) &&
      (read.Ok? ==> r.Ok? && buffer[..n] == read.value && buffer[n..] == old(buffer[n..]))
  {
    var regions, root := mmu.physical.regions, mmu.pagingTableAddress;
    var va := Wrap(ip + size);
    ghost var original := buffer[..];
    ghost var done: seq<u8> := [];
    var i := 0;
    while i < n
      invariant 0 <= i <= n && |done| == i
      invariant VirtReadBytes(regions, root, va, i) == Ok(done)
      invariant buffer[..] == done + original[i..]
    {
      var b := VirtRead(regions, root, ByteAddress(va, i));
      if b.Err? {
        VirtReadBytesFaultAfter(regions, root, va, n, i);
        return Err(b.fault);
      }
      VirtReadBytesStep(regions, root, va, i);
      buffer[i] := b.value;
      Overwrite(done, original[i..], b.value);
      done := done + [b.value];
      i := i + 1;
    }
    assert buffer[..n] == (done + original[n..])[..n];
    return Ok(());
  }

  /** Storing at the first position past `done` moves the boundary one to the right. */
  lemma Overwrite(done: seq<u8>, rest: seq<u8>, b: u8)
    requires |rest| > 0
    ensures (done + rest)[|done| := b] == (done + [b]) + rest[1..]
  {
    assert forall k | 0 <= k < |done| + |rest| :: (done + rest)[|done| := b][k] == ((done + [b]) + rest[1..])[k];
  }
}
