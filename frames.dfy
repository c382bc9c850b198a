// What the bytes of an interrupt frame read back as. A frame is written one
// byte at a time through the page tables, so a byte that lands inside a
// page-table entry could change how later bytes translate; the lemmas here
// say when it cannot, and then that `iret` on the stack the handler was
// entered with reads back exactly the four words the entry pushed.

module FrameMemory {
  import opened Bits
  import opened Interrupts
  import opened Physical
  import opened Paging

  /** The levels of `translate`: bits 47..39, 38..30, 29..21 and 20..12 of the address. */
  const LEVELS: seq<nat> := [39, 30, 21, 12]

  // ---- Entries a walk reads ----

  /** The address of the entry one level of the walk reads. */
  function EntryAt(table: u64, va: u64, shift: nat): u64 { Wrap(table + 8 * Field(va, shift)) }

  /** The entries the walk reads, in order, up to the first that is not present. */
  function WalkEntries(regions: seq<Region>, table: u64, va: u64, shifts: seq<nat>): (es: seq<u64>)
    requires ModulesFit(regions)
    ensures |es| <= |shifts|
    ensures |shifts| > 0 ==> |es| > 0 && es[0] == EntryAt(table, va, shifts[0])
    decreases |shifts|
  {
    if |shifts| == 0 then []
    else
      match Step(regions, table, va, shifts[0])
      case Err(_) => [EntryAt(table, va, shifts[0])]
      case Ok(next) => [EntryAt(table, va, shifts[0])] + WalkEntries(regions, next, va, shifts[1..])
  }

  /** `pa` is one of the eight bytes of the entry at `e`. */
  predicate InEntry(e: u64, pa: u64) { Wrap(pa as int - e) < 8 }

  /** No entry that translating `va` reads covers the physical byte `pa`. */
  predicate WalkAvoids(regions: seq<Region>, root: u64, va: u64, pa: u64)
    requires ModulesFit(regions)
  {
    var es := WalkEntries(regions, root, va, LEVELS);
    forall k | 0 <= k < |es| :: !InEntry(es[k], pa)
  }

  /** The bytes of an entry are the entry's address plus 0 to 7, and no other address. */
  lemma EntryBytes(e: u64, pa: u64, j: nat)
    requires j < 8 && Wrap(e + j) == pa
    ensures InEntry(e, pa)
  {
    WrapAdd(e + j, -(e as int));
  }

  /** A write to a byte outside an entry leaves the entry's value as it was. */
  lemma WriteKeepsEntry(regions: seq<Region>, pa: u64, value: u8, e: u64)
    requires ModulesFit(regions) && !InEntry(e, pa)
    ensures PhysReadU64(PhysWrite(regions, pa, value), e) == PhysReadU64(regions, e)
  {
    var w := PhysWrite(regions, pa, value);
    var before := PhysReadBytes(regions, e, 8);
    var after := PhysReadBytes(w, e, 8);
    forall j | 0 <= j < 8
      ensures after[j] == before[j]
    {
      var q := Wrap(e + j);
      if q == pa {
        EntryBytes(e, pa, j);
      }
      PhysReadAfterWriteOther(regions, pa, value, q);
    }
    assert after == before;
  }

  /** A walk depends only on the entries it reads: the same values there give the same walk. */
  lemma {:induction false} WalkStable(a: seq<Region>, b: seq<Region>, table: u64, va: u64, shifts: seq<nat>)
    requires ModulesFit(a) && ModulesFit(b)
    requires forall k | 0 <= k < |WalkEntries(a, table, va, shifts)| ::
      PhysReadU64(b, WalkEntries(a, table, va, shifts)[k]) == PhysReadU64(a, WalkEntries(a, table, va, shifts)[k])
    ensures Walk(b, table, va, shifts) == Walk(a, table, va, shifts)
    ensures WalkEntries(b, table, va, shifts) == WalkEntries(a, table, va, shifts)
    decreases |shifts|
  {
    if |shifts| > 0 {
      var es := WalkEntries(a, table, va, shifts);
      assert PhysReadU64(b, es[0]) == PhysReadU64(a, es[0]);
      assert Step(b, table, va, shifts[0]) == Step(a, table, va, shifts[0]);
      var s := Step(a, table, va, shifts[0]);
      if s.Ok? {
        var rest := WalkEntries(a, s.value, va, shifts[1..]);
        assert es == [es[0]] + rest;
        forall k | 0 <= k < |rest|
          ensures PhysReadU64(b, rest[k]) == PhysReadU64(a, rest[k])
        {
          assert rest[k] == es[k + 1];
        }
        WalkStable(a, b, s.value, va, shifts[1..]);
      }
    }
  }

  /** A write to a byte no entry of the walk covers changes neither where `va` translates to nor the entries read. */
  lemma WriteKeepsTranslation(regions: seq<Region>, root: u64, va: u64, pa: u64, value: u8)
    requires ModulesFit(regions) && WalkAvoids(regions, root, va, pa) && Translate(regions, root, va).Ok?
    ensures Translate(PhysWrite(regions, pa, value), root, va).Ok?
    ensures Translate(PhysWrite(regions, pa, value), root, va).value == Translate(regions, root, va).value
    ensures WalkEntries(PhysWrite(regions, pa, value), root, va, LEVELS) == WalkEntries(regions, root, va, LEVELS)
  {
    var w := PhysWrite(regions, pa, value);
    WriteKeepsWalk(regions, root, va, pa, value);
    SameWalkSamePage(regions, w, root, va);
  }

  lemma WriteKeepsWalk(regions: seq<Region>, root: u64, va: u64, pa: u64, value: u8)
    requires ModulesFit(regions) && WalkAvoids(regions, root, va, pa)
    ensures Walk(PhysWrite(regions, pa, value), root, va, LEVELS) == Walk(regions, root, va, LEVELS)
    ensures WalkEntries(PhysWrite(regions, pa, value), root, va, LEVELS) == WalkEntries(regions, root, va, LEVELS)
  {
    var w := PhysWrite(regions, pa, value);
    var es := WalkEntries(regions, root, va, LEVELS);
    forall k | 0 <= k < |es|
      ensures PhysReadU64(w, es[k]) == PhysReadU64(regions, es[k])
    {
      WriteKeepsEntry(regions, pa, value, es[k]);
    }
    WalkStable(regions, w, root, va, LEVELS);
  }

  /** Two memories whose walks for `va` agree translate `va` to the same byte. */
  lemma SameWalkSamePage(a: seq<Region>, b: seq<Region>, root: u64, va: u64)
    requires ModulesFit(a) && ModulesFit(b) && Walk(a, root, va, LEVELS) == Walk(b, root, va, LEVELS)
    requires Translate(a, root, va).Ok?
    ensures Translate(b, root, va).Ok? && Translate(b, root, va).value == Translate(a, root, va).value
  {
    TranslateIsWalk(a, root, va);
    TranslateIsWalk(b, root, va);
  }

  // ---- Kinds of modules ----

  /** The same modules over the same ranges, ROM where it was ROM. */
  predicate SameKinds(a: seq<Region>, b: seq<Region>) {
    |a| == |b| &&
    forall i | 0 <= i < |a| :: a[i].range == b[i].range && a[i].memory.Rom? == b[i].memory.Rom?
  }

  /** A physical write keeps every module's range and kind. */
  lemma WriteKeepsKinds(regions: seq<Region>, pa: u64, value: u8)
    requires ModulesFit(regions)
    ensures SameKinds(regions, PhysWrite(regions, pa, value))
  {
  }

  /** Whether a byte is RAM depends only on the ranges and kinds. */
  lemma RamSameKinds(a: seq<Region>, b: seq<Region>, pa: u64)
    requires SameKinds(a, b)
    ensures IsRam(a, pa) == IsRam(b, pa)
  {
    FloorSameKeys(a, b, pa);
  }

  // ---- Runs of mapped bytes ----

  /** Byte `t` of the run of bytes from `base` on, wrapping. */
  function RunByte(base: u64, t: nat): u64 { Wrap(base + t) }

  /** Byte `i` from byte `at` of a run is byte `at + i` of it. */
  lemma RunByteStep(base: u64, at: nat, i: nat)
    ensures ByteAddress(RunByte(base, at), i) == RunByte(base, at + i)
  {
    WrapAdd(base as int + at, i);
  }

  /**
   * Physical byte `t` of a run. Only this term instantiates the facts of
   * `Mapped`, so that a proof that carries them unused does not unfold a
   * translation per byte.
   */
  function Phys(pas: seq<u64>, t: nat): u64
    requires t < |pas|
  {
    pas[t]
  }

  /**
   * The bytes `base`, `base + 1`, ... translate to RAM bytes `pas[0]`,
   * `pas[1]`, ..., no two the same, and none of them lies in an entry that
   * translating a byte of the run reads: writing the run cannot remap it.
   */
  ghost predicate Mapped(regions: seq<Region>, root: u64, base: u64, pas: seq<u64>)
    requires ModulesFit(regions)
  {
    (forall t {:trigger Phys(pas, t)} | 0 <= t < |pas| ::
      Translate(regions, root, RunByte(base, t)).Ok? &&
      Translate(regions, root, RunByte(base, t)).value == Phys(pas, t) &&
      IsRam(regions, Phys(pas, t))) &&
    Distinct(pas) &&
    (forall t, u {:trigger Phys(pas, t), Phys(pas, u)} | 0 <= t < |pas| && 0 <= u < |pas| ::
      WalkAvoids(regions, root, RunByte(base, u), Phys(pas, t)))
  }

  /** No physical byte appears twice in the run. */
  predicate Distinct(pas: seq<u64>) {
    forall t, u | 0 <= t < u < |pas| :: Phys(pas, t) != Phys(pas, u)
  }

  /** Physical byte `q` holds the same value in both memories. */
  predicate SameByte(a: seq<Region>, b: seq<Region>, q: u64)
    requires ModulesFit(a) && ModulesFit(b)
  {
    PhysRead(a, q) == PhysRead(b, q)
  }

  /** `after` is `before` with at most the bytes `pas` written: same modules, same kinds, same bytes elsewhere. */
  predicate Untouched(before: seq<Region>, after: seq<Region>, pas: seq<u64>)
    requires ModulesFit(before) && ModulesFit(after)
  {
    SameKinds(before, after) &&
    forall q: u64 {:trigger SameByte(after, before, q)} | q !in pas :: SameByte(after, before, q)
  }

  /** An entry no byte of the run lies in reads the same in a memory where only the run was written. */
  lemma EntryUntouched(before: seq<Region>, after: seq<Region>, pas: seq<u64>, e: u64)
    requires ModulesFit(before) && ModulesFit(after) && Untouched(before, after, pas)
    requires forall s | 0 <= s < |pas| :: !InEntry(e, pas[s])
    ensures PhysReadU64(after, e) == PhysReadU64(before, e)
  {
    var old_ := PhysReadBytes(before, e, 8);
    var new_ := PhysReadBytes(after, e, 8);
    forall j | 0 <= j < 8
      ensures new_[j] == old_[j]
    {
      var q := Wrap(e + j);
      if q in pas {
        var s :| 0 <= s < |pas| && pas[s] == q;
        EntryBytes(e, q, j);
        assert false;
      }
      assert SameByte(after, before, q);
    }
    assert new_ == old_;
  }

  /** Where only the run was written, each byte of the run still translates to its physical byte, which is still RAM. */
  lemma StillMapped(before: seq<Region>, after: seq<Region>, root: u64, base: u64, pas: seq<u64>, t: nat)
    requires ModulesFit(before) && ModulesFit(after) && Mapped(before, root, base, pas)
    requires Untouched(before, after, pas) && t < |pas|
    ensures Translate(after, root, RunByte(base, t)).Ok?
    ensures Translate(after, root, RunByte(base, t)).value == pas[t]
    ensures IsRam(after, pas[t])
  {
    var va := RunByte(base, t);
    assert Phys(pas, t) == pas[t];
    var es := WalkEntries(before, root, va, LEVELS);
    forall k | 0 <= k < |es|
      ensures PhysReadU64(after, es[k]) == PhysReadU64(before, es[k])
    {
      forall s | 0 <= s < |pas|
        ensures !InEntry(es[k], pas[s])
      {
        assert Phys(pas, s) == pas[s];
        assert WalkAvoids(before, root, va, Phys(pas, s));
      }
      EntryUntouched(before, after, pas, es[k]);
    }
    WalkStable(before, after, root, va, LEVELS);
    SameWalkSamePage(before, after, root, va);
    RamSameKinds(before, after, pas[t]);
  }

  /** The byte stored at physical byte `t` of a run. */
  function RunRead(regions: seq<Region>, pas: seq<u64>, t: nat): u8
    requires ModulesFit(regions) && t < |pas|
  {
    PhysRead(regions, pas[t])
  }

  /** A physical write to byte `at + i` of the run keeps `regions` a memory where only the run was written. */
  lemma WriteInRun(before: seq<Region>, regions: seq<Region>, pas: seq<u64>, at: nat, i: nat, value: u8)
    requires ModulesFit(before) && ModulesFit(regions) && Untouched(before, regions, pas) && at + i < |pas|
    ensures Untouched(before, PhysWrite(regions, pas[at + i], value), pas)
  {
    var w := PhysWrite(regions, pas[at + i], value);
    forall q: u64 | q !in pas
      ensures SameByte(w, before, q)
    {
      assert SameByte(regions, before, q);
      PhysReadAfterWriteOther(regions, pas[at + i], value, q);
    }
    WriteKeepsKinds(regions, pas[at + i], value);
  }

  /** Writing byte `at + i` of a run whose bytes are distinct leaves its byte `u` alone. */
  lemma WriteOther(regions: seq<Region>, pas: seq<u64>, at: nat, i: nat, value: u8, u: nat)
    requires ModulesFit(regions) && Distinct(pas) && at + i < |pas| && u < |pas| && u != at + i
    ensures RunRead(PhysWrite(regions, pas[at + i], value), pas, u) == RunRead(regions, pas, u)
  {
    assert pas[u] != pas[at + i] by {
      if u < at + i { assert Phys(pas, u) != Phys(pas, at + i); } else { assert Phys(pas, at + i) != Phys(pas, u); }
    }
    PhysReadAfterWriteOther(regions, pas[at + i], value, pas[u]);
  }

  /** Writing byte `u = at + i` of a run, a RAM byte, stores the value. */
  lemma WriteSame(before: seq<Region>, regions: seq<Region>, pas: seq<u64>, at: nat, i: nat, value: u8, u: nat)
    requires ModulesFit(before) && ModulesFit(regions) && SameKinds(before, regions)
    requires u == at + i && u < |pas| && IsRam(before, Phys(pas, u))
    ensures RunRead(PhysWrite(regions, pas[at + i], value), pas, u) == value
  {
    RamSameKinds(before, regions, pas[u]);
    PhysReadAfterWriteSame(regions, pas[u], value);
  }

  /** The physical writes of `bytes[i..]` to bytes `at + i`, ... of a run, in order. */
  function Planned(regions: seq<Region>, pas: seq<u64>, at: nat, bytes: seq<u8>, i: nat): (r: seq<Region>)
    requires ModulesFit(regions) && i <= |bytes| && at + |bytes| <= |pas|
    ensures ModulesFit(r)
    decreases |bytes| - i
  {
    if i == |bytes| then regions
    else Planned(PhysWrite(regions, pas[at + i], bytes[i]), pas, at, bytes, i + 1)
  }

  /** The planned writes write only the run. */
  lemma PlannedUntouched(before: seq<Region>, regions: seq<Region>, pas: seq<u64>,
                                            at: nat, bytes: seq<u8>, i: nat)
    requires ModulesFit(before) && ModulesFit(regions) && Untouched(before, regions, pas)
    requires i <= |bytes| && at + |bytes| <= |pas|
    ensures Untouched(before, Planned(regions, pas, at, bytes, i), pas)
    decreases |bytes| - i
  {
    if i < |bytes| {
      WriteInRun(before, regions, pas, at, i, bytes[i]);
      PlannedUntouched(before, PhysWrite(regions, pas[at + i], bytes[i]), pas, at, bytes, i + 1);
    }
  }

  /** The planned writes leave the bytes of the run outside `at + i .. at + |bytes|` as they were. */
  lemma PlannedOutside(regions: seq<Region>, pas: seq<u64>, at: nat, bytes: seq<u8>, i: nat, t: nat)
    requires ModulesFit(regions) && Distinct(pas)
    requires i <= |bytes| && at + |bytes| <= |pas| && t < |pas| && !(at + i <= t < at + |bytes|)
    ensures RunRead(Planned(regions, pas, at, bytes, i), pas, t) == RunRead(regions, pas, t)
    decreases |bytes| - i
  {
    if i < |bytes| {
      WriteOther(regions, pas, at, i, bytes[i], t);
      PlannedOutside(PhysWrite(regions, pas[at + i], bytes[i]), pas, at, bytes, i + 1, t);
    }
  }

  /** The planned writes from byte `t = at + i` of the run on leave it holding `bytes[i]`. */
  lemma PlannedHit(before: seq<Region>, regions: seq<Region>, pas: seq<u64>, at: nat, bytes: seq<u8>, i: nat, t: nat)
    requires ModulesFit(before) && ModulesFit(regions) && SameKinds(before, regions) && Distinct(pas)
    requires i < |bytes| && at + |bytes| <= |pas| && t == at + i && IsRam(before, Phys(pas, t))
    ensures RunRead(Planned(regions, pas, at, bytes, i), pas, t) == bytes[t - at]
  {
    var next := PhysWrite(regions, pas[at + i], bytes[i]);
    WriteSame(before, regions, pas, at, i, bytes[i], t);
    PlannedOutside(next, pas, at, bytes, i + 1, t);
    assert t - at == i;
  }

  /** The planned writes leave byte `t` of the run, for `at + i <= t < at + |bytes|`, holding `bytes[t - at]`. */
  lemma PlannedInside(before: seq<Region>, regions: seq<Region>, root: u64, base: u64, pas: seq<u64>,
                                         at: nat, bytes: seq<u8>, i: nat, t: nat)
    requires ModulesFit(before) && ModulesFit(regions) && Mapped(before, root, base, pas)
    requires Untouched(before, regions, pas)
    requires i <= |bytes| && at + |bytes| <= |pas| && at + i <= t < at + |bytes|
    ensures RunRead(Planned(regions, pas, at, bytes, i), pas, t) == bytes[t - at]
    decreases |bytes| - i
  {
    var next := PhysWrite(regions, pas[at + i], bytes[i]);
    if t == at + i {
      PlannedHit(before, regions, pas, at, bytes, i, t);
    } else {
      WriteInRun(before, regions, pas, at, i, bytes[i]);
      PlannedInside(before, next, root, base, pas, at, bytes, i + 1, t);
    }
  }

  /**
   * `bytes[i..]` written from `va + i` on, where `va` is byte `at` of a
   * mapped run that has room for them, in a memory where only the run was
   * written so far: no write faults, and the memory is that of the planned
   * physical writes.
   */
  lemma WriteRun(before: seq<Region>, regions: seq<Region>, root: u64, base: u64, pas: seq<u64>,
                                    at: nat, bytes: seq<u8>, i: nat)
    requires ModulesFit(before) && ModulesFit(regions) && Mapped(before, root, base, pas)
    requires Untouched(before, regions, pas)
    requires i <= |bytes| && at + |bytes| <= |pas|
    ensures WriteFrom(regions, root, RunByte(base, at), bytes, i) == (Planned(regions, pas, at, bytes, i), Ok(()))
    decreases |bytes| - i
  {
    if i < |bytes| {
      RunStep(before, regions, root, base, pas, at, bytes, i);
      WriteInRun(before, regions, pas, at, i, bytes[i]);
      WriteRun(before, PhysWrite(regions, pas[at + i], bytes[i]), root, base, pas, at, bytes, i + 1);
    }
  }

  /** One byte of `WriteRun`: the write of byte `i` is the physical write of byte `at + i` of the run. */
  lemma RunStep(before: seq<Region>, regions: seq<Region>, root: u64, base: u64, pas: seq<u64>,
                at: nat, bytes: seq<u8>, i: nat)
    requires ModulesFit(before) && ModulesFit(regions) && Mapped(before, root, base, pas)
    requires Untouched(before, regions, pas)
    requires i < |bytes| && at + |bytes| <= |pas|
    ensures WriteFrom(regions, root, RunByte(base, at), bytes, i) ==
      WriteFrom(PhysWrite(regions, pas[at + i], bytes[i]), root, RunByte(base, at), bytes, i + 1)
  {
    var va := RunByte(base, at);
    RunByteStep(base, at, i);
    StillMapped(before, regions, root, base, pas, at + i);
    var next := PhysWrite(regions, pas[at + i], bytes[i]);
    var b := bytes[i];
    assert VirtWrite(regions, root, RunByte(base, at + i), b).Ok?;
    assert VirtWrite(regions, root, ByteAddress(va, i), b).Ok?;
    WriteFromStep(regions, root, va, bytes, i, next);
  }

  lemma WriteFromStep(regions: seq<Region>, root: u64, va: u64, bytes: seq<u8>, i: nat, next: seq<Region>)
    requires ModulesFit(regions) && i < |bytes|
    requires VirtWrite(regions, root, ByteAddress(va, i), bytes[i]).Ok?
    requires VirtWrite(regions, root, ByteAddress(va, i), bytes[i]).value == next
    ensures ModulesFit(next)
    ensures WriteFrom(regions, root, va, bytes, i) == WriteFrom(next, root, va, bytes, i + 1)
  {
  }
}
