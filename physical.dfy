/**
 * Physical memory: the memory modules (sparse RAM of the simulator, flat RAM
 * of the older tree, ROM) and the physical memory management unit that routes
 * an address to the module whose range covers it.
 */
module Physical {
  import opened Bits
  import opened Interrupts

  const PAGE_SIZE: nat := 0x1000
  const ISIZE_MAX: nat := 0x7FFF_FFFF_FFFF_FFFF
  const U64_MAX: u64 := 0xFFFF_FFFF_FFFF_FFFF

  type Page = s: seq<u8> | |s| == PAGE_SIZE witness seq(PAGE_SIZE, _ => 0)

  /**
   * A memory module. `SparseRam` is the simulator's `ConventionalMemory` (a
   * map from page base to a 4 KiB page, missing pages read as zero);
   * `FlatRam` is the older tree's `ConventionalMemory` (a zero-filled byte
   * vector); `Rom` is `ReadOnlyMemory`.
   */
  datatype Memory =
    | SparseRam(pages: map<u64, Page>)
    | FlatRam(data: seq<u8>)
    | Rom(data: seq<u8>)

  /** A module can serve every offset below `size` (the `Memory` trait's contract). */
  predicate Fits(m: Memory, size: nat) {
    m.SparseRam? || size <= |m.data|
  }

  /** `ConventionalMemory::create` of the simulator: the size is not used. */
  function CreateSparseRam(size: u64): (m: Memory)
    ensures Fits(m, size)
  {
    SparseRam(map[])
  }

  /** `ConventionalMemory::create` of the older tree: halts (`None`) when the size exceeds `isize::MAX`. */
  function CreateFlatRam(size: u64): (m: Option<Memory>)
    ensures m.None? <==> size > ISIZE_MAX
    ensures m.Some? ==> m.value.FlatRam? && Fits(m.value, size) && forall i :: 0 <= i < |m.value.data| ==> m.value.data[i] == 0
  {
    if size > ISIZE_MAX then None else Some(FlatRam(seq(size, _ => 0)))
  }

  /**
   * `ReadOnlyMemory::create`: halts when the size exceeds `isize::MAX` or the
   * prefix is longer than the size; otherwise the prefix followed by zeros.
   */
  function CreateRom(prefix: seq<u8>, size: u64): (m: Option<Memory>)
    ensures m.None? <==> size > ISIZE_MAX || |prefix| > size
    ensures m.Some? ==> Fits(m.value, size)
  {
    if size > ISIZE_MAX then None
    else if |prefix| > size then None
    else Some(Rom(prefix + seq(size - |prefix|, _ => 0)))
  }

  /** `address & 0xFFFF_FFFF_FFFF_F000`: the key of the page holding the address. */
  function PageKey(address: u64): u64 { And64(address, 0xFFFF_FFFF_FFFF_F000) }
  /** `address & 0xFFF`: the byte's index within its page. */
  function PageIndex(address: u64): nat { And64(address, 0xFFF) }

  lemma PageKeyAndIndex(address: u64)
    ensures PageKey(address) == address - address % PAGE_SIZE
    ensures PageIndex(address) == address % PAGE_SIZE
  {
    PageKeyIsBase(address);
    PageIndexIsOffset(address);
  }

  lemma PageKeyIsBase(address: u64)
    ensures PageKey(address) == address - address % PAGE_SIZE
  {
    Pow2Of12();
    Pow2Of64();
    AndMaskRange(address, 12, 64);
  }

  lemma PageIndexIsOffset(address: u64)
    ensures PageIndex(address) == address % PAGE_SIZE
  {
    Pow2Of12();
    AndLowMask(address, 12);
  }

  /** Two addresses share a page key and index only when they are equal. */
  lemma PageSlotInjective(a: u64, b: u64)
    requires PageKey(a) == PageKey(b) && PageIndex(a) == PageIndex(b)
    ensures a == b
  {
    PageKeyAndIndex(a);
    PageKeyAndIndex(b);
  }

  /** `Memory::read_u8` at an offset the module serves. */
  function ModuleRead(m: Memory, offset: u64): u8
    requires m.SparseRam? || offset < |m.data|
  {
    match m
    case SparseRam(pages) =>
      PageKeyAndIndex(offset);
      var key := PageKey(offset);
      if key in pages then pages[key][PageIndex(offset)] else 0
    case FlatRam(data) => data[offset]
    case Rom(data) => data[offset]
  }

  /** `Memory::write_u8`; a ROM ignores writes, sparse RAM inserts a zero page first when needed. */
  function ModuleWrite(m: Memory, offset: u64, value: u8): (m': Memory)
    requires m.SparseRam? || offset < |m.data|
    ensures m'.SparseRam? == m.SparseRam? && m'.FlatRam? == m.FlatRam? && m'.Rom? == m.Rom?
    ensures !m.SparseRam? ==> |m'.data| == |m.data|
  {
    match m
    case SparseRam(pages) =>
      PageKeyAndIndex(offset);
      var key := PageKey(offset);
      var page: Page := if key in pages then pages[key] else seq(PAGE_SIZE, _ => 0);
      SparseRam(pages[key := page[PageIndex(offset) := value]])
    case FlatRam(data) => FlatRam(data[offset := value])
    case Rom(_) => m
  }

  /** Fresh RAM of either tree reads as zero everywhere. */
  lemma FreshRamReadsZero(size: u64, offset: u64)
    requires offset < size <= ISIZE_MAX
    ensures ModuleRead(CreateSparseRam(size), offset) == 0
    ensures ModuleRead(CreateFlatRam(size).value, offset) == 0
  {}

  /** A ROM reads its prefix and then zeros. */
  lemma RomContents(prefix: seq<u8>, size: u64, offset: u64)
    requires |prefix| <= size <= ISIZE_MAX && offset < size
    ensures ModuleRead(CreateRom(prefix, size).value, offset) == if offset < |prefix| then prefix[offset] else 0
  {}

  /** Read after write on a single module: RAM returns the written byte, a ROM is unchanged, other offsets keep their byte. */
  lemma ModuleReadWrite(m: Memory, offset: u64, value: u8, other: u64)
    requires m.SparseRam? || (offset < |m.data| && other < |m.data|)
    ensures ModuleRead(ModuleWrite(m, offset, value), other) ==
      if other == offset && !m.Rom? then value else ModuleRead(m, other)
  {
    PageKeyAndIndex(offset);
    PageKeyAndIndex(other);
    if m.SparseRam? && other != offset && PageKey(other) == PageKey(offset) {
      if PageIndex(other) == PageIndex(offset) { PageSlotInjective(other, offset); }
    }
  }

  // ---- The range table ----

  /** `Range { begin, end }`; the derived `Ord` is lexicographic. */
  datatype Range = Range(begin: u64, end: u64)

  predicate RangeLe(a: Range, b: Range) {
    a.begin < b.begin || (a.begin == b.begin && a.end <= b.end)
  }

  /** One entry of the `ranges` BTreeMap. */
  datatype Region = Region(range: Range, memory: Memory)

  /** The keys are distinct, as in a map. */
  predicate DistinctKeys(regions: seq<Region>) {
    forall i, j :: 0 <= i < j < |regions| ==> regions[i].range != regions[j].range
  }

  /** Every module can serve every offset of its range. */
  predicate ModulesFit(regions: seq<Region>) {
    forall i :: 0 <= i < |regions| ==>
      regions[i].range.begin <= regions[i].range.end &&
      Fits(regions[i].memory, regions[i].range.end - regions[i].range.begin)
  }

  predicate WellFormed(regions: seq<Region>) { DistinctKeys(regions) && ModulesFit(regions) }

  /** A key is at most `(address, u64::MAX)` exactly when its begin is at most the address. */
  lemma AtMostBound(r: Range, address: u64)
    ensures RangeLe(r, Range(address, U64_MAX)) <==> r.begin <= address
  {}

  /**
   * `lower_bound(Excluded(&Range::new(address, u64::MAX))).prev()`: the entry
   * with the greatest key not above `(address, u64::MAX)`.
   */
  function Floor(regions: seq<Region>, address: u64): (r: Option<nat>)
    ensures r.Some? ==> r.value < |regions| && RangeLe(regions[r.value].range, Range(address, U64_MAX))
    ensures r.Some? ==> forall j {:trigger RangeLe(regions[j].range, Range(address, U64_MAX))} ::
      0 <= j < |regions| && RangeLe(regions[j].range, Range(address, U64_MAX)) ==>
      RangeLe(regions[j].range, regions[r.value].range)
    ensures r.None? ==> forall j {:trigger RangeLe(regions[j].range, Range(address, U64_MAX))} ::
      0 <= j < |regions| ==> !RangeLe(regions[j].range, Range(address, U64_MAX))
  {
    if |regions| == 0 then None
    else
      var rest := Floor(regions[..|regions| - 1], address);
      var last := regions[|regions| - 1].range;
      if !RangeLe(last, Range(address, U64_MAX)) then rest
      else if rest.None? || RangeLe(regions[rest.value].range, last) then Some(|regions| - 1)
      else rest
  }

  /** The module entry that serves an address, if any: the floor entry, when its end lies above the address. */
  function Serving(regions: seq<Region>, address: u64): (r: Option<nat>)
    ensures r.Some? ==> r.value < |regions| && regions[r.value].range.begin <= address < regions[r.value].range.end
  {
    var f := Floor(regions, address);
    if f.Some? && regions[f.value].range.end > address then f else None
  }

  /** The range lookup only asks a module for an offset below its range size, so the module can serve it. */
  lemma ServingInBounds(regions: seq<Region>, address: u64)
    requires ModulesFit(regions)
    requires Serving(regions, address).Some?
    ensures var i := Serving(regions, address).value;
      var m := regions[i].memory;
      address - regions[i].range.begin < regions[i].range.end - regions[i].range.begin &&
      (m.SparseRam? || address - regions[i].range.begin < |m.data|)
  {}

  /** `PhysicalMemoryManagementUnit::read_u8`: the serving module's byte, or 0xFF where none serves. */
  function PhysRead(regions: seq<Region>, address: u64): u8
    requires ModulesFit(regions)
  {
    match Serving(regions, address)
    case None => 0xFF
    case Some(i) =>
      ServingInBounds(regions, address);
      ModuleRead(regions[i].memory, address - regions[i].range.begin)
  }

  /** `PhysicalMemoryManagementUnit::write_u8`: delegated to the serving module, dropped where none serves. */
  function PhysWrite(regions: seq<Region>, address: u64, value: u8): (r: seq<Region>)
    requires ModulesFit(regions)
    ensures |r| == |regions| && ModulesFit(r)
  {
    match Serving(regions, address)
    case None => regions
    case Some(i) =>
      ServingInBounds(regions, address);
      var m := regions[i].memory;
      regions[i := Region(regions[i].range, ModuleWrite(m, address - regions[i].range.begin, value))]
  }

  /** `read_u64`: eight byte reads at `address + i` (wrapping), assembled little-endian. */
  function PhysReadU64(regions: seq<Region>, address: u64): u64
    requires ModulesFit(regions)
  {
    Pow256Table();
    FromLe(PhysReadBytes(regions, address, 8))
  }

  function PhysReadBytes(regions: seq<Region>, address: u64, n: nat): (bs: seq<u8>)
    requires ModulesFit(regions)
    ensures |bs| == n
    ensures forall i :: 0 <= i < n ==> bs[i] == PhysRead(regions, Wrap(address + i))
  {
    if n == 0 then [] else PhysReadBytes(regions, address, n - 1) + [PhysRead(regions, Wrap(address + n - 1))]
  }

  /** The state after writing the first `n` bytes of `bytes` at `address + i` (wrapping), in order. */
  function PhysWriteBytes(regions: seq<Region>, address: u64, bytes: seq<u8>, n: nat): (r: seq<Region>)
    requires ModulesFit(regions) && n <= |bytes|
    ensures ModulesFit(r) && |r| == |regions|
    ensures forall i :: 0 <= i < |r| ==> r[i].range == regions[i].range
  {
    if n == 0 then regions
    else PhysWrite(PhysWriteBytes(regions, address, bytes, n - 1), Wrap(address + n - 1), bytes[n - 1])
  }

  lemma PhysWriteBytesStep(regions: seq<Region>, address: u64, bytes: seq<u8>, n: nat)
    requires ModulesFit(regions) && n < |bytes|
    ensures PhysWriteBytes(regions, address, bytes, n + 1) ==
      PhysWrite(PhysWriteBytes(regions, address, bytes, n), Wrap(address + n), bytes[n])
  {}

  /** A physical write changes the byte it targets (unless that is ROM or unmapped) and no other address. */
  lemma PhysReadAfterWrite(regions: seq<Region>, address: u64, value: u8, other: u64)
    requires ModulesFit(regions)
    ensures PhysRead(PhysWrite(regions, address, value), other) ==
      if other == address && IsRam(regions, address) then value else PhysRead(regions, other)
  {
    if other == address {
      PhysReadAfterWriteSame(regions, address, value);
    } else {
      PhysReadAfterWriteOther(regions, address, value, other);
    }
  }

  lemma PhysReadAfterWriteSame(regions: seq<Region>, address: u64, value: u8)
    requires ModulesFit(regions)
    ensures PhysRead(PhysWrite(regions, address, value), address) ==
      if IsRam(regions, address) then value else PhysRead(regions, address)
  {
    var w := PhysWrite(regions, address, value);
    FloorSameKeys(regions, w, address);
    if Serving(regions, address).Some? {
      var i := Serving(regions, address).value;
      var offset := address - regions[i].range.begin;
      PhysWriteAt(regions, address, value, i);
      PhysReadAt(regions, address, i);
      PhysReadAt(w, address, i);
      ModuleReadWrite(regions[i].memory, offset, value, offset);
    }
  }

  lemma PhysReadAfterWriteOther(regions: seq<Region>, address: u64, value: u8, other: u64)
    requires ModulesFit(regions) && other != address
    ensures PhysRead(PhysWrite(regions, address, value), other) == PhysRead(regions, other)
  {
    var w := PhysWrite(regions, address, value);
    FloorSameKeys(regions, w, other);
    if Serving(regions, address).Some? && Serving(regions, other).Some? {
      var i := Serving(regions, address).value;
      var j := Serving(regions, other).value;
      PhysWriteAt(regions, address, value, i);
      if i == j {
        OtherOffsetSameModule(regions, address, value, other, i);
      } else {
        PhysReadAt(regions, other, j);
        PhysReadAt(w, other, j);
        assert w[j] == regions[j];
      }
    }
  }

  lemma OtherOffsetSameModule(regions: seq<Region>, address: u64, value: u8, other: u64, i: nat)
    requires ModulesFit(regions) && other != address
    requires Serving(regions, address) == Some(i) && Serving(regions, other) == Some(i)
    requires Serving(PhysWrite(regions, address, value), other) == Some(i)
    ensures PhysRead(PhysWrite(regions, address, value), other) == PhysRead(regions, other)
  {
    var w := PhysWrite(regions, address, value);
    var m := regions[i].memory;
    var base := regions[i].range.begin;
    PhysWriteAt(regions, address, value, i);
    PhysReadAt(regions, address, i);
    PhysReadAt(regions, other, i);
    PhysReadAt(w, other, i);
    assert w[i].memory == ModuleWrite(m, address - base, value);
    assert w[i].range.begin == base;
    ModuleReadWrite(m, address - base, value, other - base);
  }

  /** The address is served by a RAM module (the writes that land there are kept). */
  predicate IsRam(regions: seq<Region>, address: u64) {
    var s := Serving(regions, address);
    s.Some? && !regions[s.value].memory.Rom?
  }

  /** The lookup depends only on the keys. */
  lemma {:induction false} FloorSameKeys(a: seq<Region>, b: seq<Region>, address: u64)
    requires |a| == |b| && forall i :: 0 <= i < |a| ==> a[i].range == b[i].range
    ensures Floor(a, address) == Floor(b, address)
    ensures Serving(a, address) == Serving(b, address)
    decreases |a|
  {
    if |a| > 0 {
      FloorSameKeys(a[..|a| - 1], b[..|b| - 1], address);
    }
  }

  lemma PhysReadAt(regions: seq<Region>, address: u64, i: nat)
    requires ModulesFit(regions) && Serving(regions, address) == Some(i)
    ensures address - regions[i].range.begin < TWO_64
    ensures regions[i].memory.SparseRam? || address - regions[i].range.begin < |regions[i].memory.data|
    ensures PhysRead(regions, address) == ModuleRead(regions[i].memory, address - regions[i].range.begin)
  {
    ServingInBounds(regions, address);
  }

  lemma PhysWriteAt(regions: seq<Region>, address: u64, value: u8, i: nat)
    requires ModulesFit(regions) && Serving(regions, address) == Some(i)
    ensures address - regions[i].range.begin < TWO_64
    ensures regions[i].memory.SparseRam? || address - regions[i].range.begin < |regions[i].memory.data|
    ensures PhysWrite(regions, address, value) ==
      regions[i := Region(regions[i].range, ModuleWrite(regions[i].memory, address - regions[i].range.begin, value))]
  {
    ServingInBounds(regions, address);
  }

  /** `BTreeMap::insert`: replaces the module of an existing key, else adds the entry. */
  function Insert(regions: seq<Region>, range: Range, memory: Memory): (r: seq<Region>)
    ensures exists i :: 0 <= i < |r| && r[i] == Region(range, memory)
  {
    match IndexOf(regions, range)
    case Some(i) =>
      assert regions[i := Region(range, memory)][i] == Region(range, memory);
      regions[i := Region(range, memory)]
    case None =>
      assert (regions + [Region(range, memory)])[|regions|] == Region(range, memory);
      regions + [Region(range, memory)]
  }

  /** The position of the entry with the given key. */
  function IndexOf(regions: seq<Region>, range: Range): (r: Option<nat>)
    ensures r.Some? ==> r.value < |regions| && regions[r.value].range == range
    ensures r.None? ==> forall i :: 0 <= i < |regions| ==> regions[i].range != range
  {
    if |regions| == 0 then None
    else if regions[|regions| - 1].range == range then Some(|regions| - 1)
    else IndexOf(regions[..|regions| - 1], range)
  }

  /** `PhysicalMemoryManagementUnit`: the `ranges` map, kept as a sequence of entries with distinct keys. */
  class PhysicalMemoryManagementUnit {
    var regions: seq<Region>

    ghost predicate Valid()
      reads this
    {
      WellFormed(regions)
    }

    constructor()
      ensures Valid() && regions == []
    {
      regions := [];
    }

    /**
     * `add`: halts when `base + size` overflows, otherwise inserts the module
     * under the key `(base, base + size)`, replacing a module added before
     * under the same key.
     */
    method Add(base: u64, size: u64, memory: Memory) returns (halted: bool)
      requires Valid() && Fits(memory, size)
      modifies this
      ensures Valid()
      ensures halted <==> base + size >= TWO_64
      ensures halted ==> regions == old(regions)
      ensures !halted ==> regions == Insert(old(regions), Range(base, base + size), memory)
    {
      if base + size >= TWO_64 {
        return true;
      }
      var range := Range(base, base + size);
      InsertWellFormed(regions, range, memory);
      regions := Insert(regions, range, memory);
      return false;
    }

    /** `write_u8`. */
    method WriteU8(address: u64, value: u8)
      requires Valid()
      modifies this
      ensures Valid()
      ensures regions == PhysWrite(old(regions), address, value)
    {
      WriteWellFormed(regions, address, value);
      regions := PhysWrite(regions, address, value);
    }

    /** `write_u64`: the eight little-endian bytes at `address + i`, in order. */
    method WriteU64(address: u64, value: u64)
      requires Valid()
      modifies this
      ensures Valid()
      ensures regions == PhysWriteBytes(old(regions), address, ToLe(value, 8), 8)
    {
      var bytes := ToLe(value, 8);
      var i := 0;
      while i < 8
        invariant 0 <= i <= 8
        invariant Valid()
        invariant regions == PhysWriteBytes(old(regions), address, bytes, i)
      {
        PhysWriteBytesStep(old(regions), address, bytes, i);
        WriteU8(Wrap(address + i), bytes[i]);
        i := i + 1;
      }
    }
  }

  /** A byte write keeps every key, so the keys stay distinct. */
  lemma WriteWellFormed(regions: seq<Region>, address: u64, value: u8)
    requires WellFormed(regions)
    ensures WellFormed(PhysWrite(regions, address, value))
  {
  }

  lemma InsertWellFormed(regions: seq<Region>, range: Range, memory: Memory)
    requires WellFormed(regions) && range.begin <= range.end && Fits(memory, range.end - range.begin)
    ensures WellFormed(Insert(regions, range, memory))
  {}

  /** Every entry after the insertion is the new one or the entry at the same position before. */
  lemma InsertEntries(regions: seq<Region>, range: Range, memory: Memory)
    ensures var r := Insert(regions, range, memory);
      forall j | 0 <= j < |r| :: r[j] == Region(range, memory) || (j < |regions| && r[j] == regions[j])
  {
  }

  /** Adding a module and reading inside its range reaches that module when no other key lies between. */
  lemma InsertedServes(regions: seq<Region>, range: Range, memory: Memory, address: u64)
    requires WellFormed(regions) && range.begin <= address < range.end && Fits(memory, range.end - range.begin)
    requires forall i :: 0 <= i < |regions| ==> !RangeLe(range, regions[i].range) || regions[i].range == range || regions[i].range.begin > address
    ensures var r := Insert(regions, range, memory);
      ModulesFit(r) && Serving(r, address).Some? && r[Serving(r, address).value] == Region(range, memory)
  {
    var r := Insert(regions, range, memory);
    InsertWellFormed(regions, range, memory);
    InsertEntries(regions, range, memory);
    var f := Floor(r, address);
    var k :| 0 <= k < |r| && r[k] == Region(range, memory);
    assert RangeLe(r[k].range, Range(address, U64_MAX));
    assert f.Some?;
    var g := f.value;
    assert RangeLe(range, r[g].range);
    assert r[g].range == r[k].range;
  }
}
