/**
 * The interrupt frame as `iret` reads it back. `interrupt` pushes four
 * words (old rsp, flags word, rip, error code) below the chosen stack top;
 * `iret` reads rip, flags and rsp at 8, 16 and 24 bytes above rsp. When the
 * 32 bytes of the frame are mapped to distinct RAM bytes outside the page
 * tables that map them, the two fit: returning right after entering a
 * handler restores rip and every register, and sets rflags to the pushed
 * flags word.
 */
module FrameReturn {
  import opened Bits
  import opened Interrupts
  import opened Physical
  import opened Paging
  import opened Devices
  import opened Cpu
  import opened Simulator
  import opened FrameMemory

  /** Word `k` of the frame starts `at = 24 - 8 * k` bytes above the frame base. */
  lemma SlotOfWord(nsp: u64, k: nat, at: nat)
    requires k < 4 && at == 24 - 8 * k
    ensures FrameSlot(nsp, k) == RunByte(FrameBase(nsp), at)
  {
    var below: int := nsp as int - 32;
    assert nsp - 8 * (k + 1) == below + at;
    WrapAdd(below, at);
  }

  /** Pushing word `k` of the frame, at `at = 24 - 8 * k`, is the planned physical writes of its eight bytes. */
  lemma PushStep(before: seq<Region>, regions: seq<Region>, root: u64, nsp: u64, pas: seq<u64>, words: seq<u64>,
                 k: nat, at: nat)
    requires ModulesFit(before) && ModulesFit(regions) && Mapped(before, root, FrameBase(nsp), pas)
    requires Untouched(before, regions, pas) && |pas| == 32 && |words| == 4 && k < 4 && at == 24 - 8 * k
    ensures Untouched(before, Planned(regions, pas, at, ToLe(words[k], 8), 0), pas)
    ensures PushFrom(regions, root, nsp, words, k) ==
      PushFrom(Planned(regions, pas, at, ToLe(words[k], 8), 0), root, nsp, words, k + 1)
  {
    SlotOfWord(nsp, k, at);
    WriteRun(before, regions, root, FrameBase(nsp), pas, at, ToLe(words[k], 8), 0);
    PlannedUntouched(before, regions, pas, at, ToLe(words[k], 8), 0);
  }

  /** The pushes of words `k..3` onto a mapped frame do not fault and write only the frame. */
  lemma PushWrites(before: seq<Region>, regions: seq<Region>, root: u64, nsp: u64, pas: seq<u64>, words: seq<u64>, k: nat)
    requires ModulesFit(before) && ModulesFit(regions) && Mapped(before, root, FrameBase(nsp), pas)
    requires Untouched(before, regions, pas) && |pas| == 32 && |words| == 4 && k <= 4
    ensures PushFrom(regions, root, nsp, words, k).1 == Ok(())
    ensures Untouched(before, PushFrom(regions, root, nsp, words, k).0, pas)
    decreases 4 - k
  {
    if k < 4 {
      var at := 24 - 8 * k;
      PushStep(before, regions, root, nsp, pas, words, k, at);
      PushWrites(before, Planned(regions, pas, at, ToLe(words[k], 8), 0), root, nsp, pas, words, k + 1);
    }
  }

  /** The pushes of words `k..3` leave the frame bytes above word `k` as they were. */
  lemma PushKeeps(before: seq<Region>, regions: seq<Region>, root: u64, nsp: u64, pas: seq<u64>, words: seq<u64>,
                  k: nat, t: nat)
    requires ModulesFit(before) && ModulesFit(regions) && Mapped(before, root, FrameBase(nsp), pas)
    requires Untouched(before, regions, pas) && |pas| == 32 && |words| == 4 && k <= 4
    requires 32 - 8 * k <= t < 32
    ensures RunRead(PushFrom(regions, root, nsp, words, k).0, pas, t) == RunRead(regions, pas, t)
    decreases 4 - k
  {
    if k < 4 {
      var at := 24 - 8 * k;
      var next := Planned(regions, pas, at, ToLe(words[k], 8), 0);
      PushStep(before, regions, root, nsp, pas, words, k, at);
      PlannedOutside(regions, pas, at, ToLe(words[k], 8), 0, t);
      PushKeeps(before, next, root, nsp, pas, words, k + 1, t);
    }
  }

  /** Pushing words `k..3` leaves frame byte `t` of word `k`, at `at = 24 - 8 * k`, holding its byte of the word. */
  lemma PushStoresFirst(before: seq<Region>, regions: seq<Region>, root: u64, nsp: u64, pas: seq<u64>, words: seq<u64>,
                        k: nat, at: nat, t: nat)
    requires ModulesFit(before) && ModulesFit(regions) && Mapped(before, root, FrameBase(nsp), pas)
    requires Untouched(before, regions, pas) && |pas| == 32 && |words| == 4 && k < 4 && at == 24 - 8 * k
    requires at <= t < at + 8
    ensures RunRead(PushFrom(regions, root, nsp, words, k).0, pas, t) == ToLe(words[k], 8)[t - at]
  {
    var next := Planned(regions, pas, at, ToLe(words[k], 8), 0);
    PushStep(before, regions, root, nsp, pas, words, k, at);
    PlannedInside(before, regions, root, FrameBase(nsp), pas, at, ToLe(words[k], 8), 0, t);
    PushKeeps(before, next, root, nsp, pas, words, k + 1, t);
  }

  /** Once words `k..3` are pushed, frame byte `t` of word `m >= k`, at `am = 24 - 8 * m`, holds its byte of the word. */
  lemma {:induction false} PushStores(before: seq<Region>, regions: seq<Region>, root: u64, nsp: u64, pas: seq<u64>,
                                      words: seq<u64>, k: nat, m: nat, am: nat, t: nat)
    requires ModulesFit(before) && ModulesFit(regions) && Mapped(before, root, FrameBase(nsp), pas)
    requires Untouched(before, regions, pas) && |pas| == 32 && |words| == 4 && k <= m < 4
    requires am == 24 - 8 * m && am <= t < am + 8
    ensures RunRead(PushFrom(regions, root, nsp, words, k).0, pas, t) == ToLe(words[m], 8)[t - am]
    decreases 4 - k
  {
    if k == m {
      PushStoresFirst(before, regions, root, nsp, pas, words, k, am, t);
    } else {
      var at := 24 - 8 * k;
      PushStep(before, regions, root, nsp, pas, words, k, at);
      PushStores(before, Planned(regions, pas, at, ToLe(words[k], 8), 0), root, nsp, pas, words, k + 1, m, am, t);
    }
  }

  /** Byte `i` of eight bytes of the run holding the bytes of `word` reads back, through the page tables, as that byte. */
  lemma ReadBackByte(before: seq<Region>, after: seq<Region>, root: u64, base: u64, pas: seq<u64>, at: nat, word: u64, i: nat)
    requires ModulesFit(before) && ModulesFit(after) && Mapped(before, root, base, pas)
    requires Untouched(before, after, pas) && at + 8 <= |pas| && i < 8
    requires RunRead(after, pas, at + i) == ToLe(word, 8)[i]
    ensures VirtRead(after, root, ByteAddress(RunByte(base, at), i)) == Ok(ToLe(word, 8)[i])
  {
    RunByteStep(base, at, i);
    StillMapped(before, after, root, base, pas, at + i);
  }

  /** Eight bytes of the run holding the bytes of `word` read back, through the page tables, as those bytes. */
  lemma ReadBack(before: seq<Region>, after: seq<Region>, root: u64, base: u64, pas: seq<u64>, at: nat, word: u64)
    requires ModulesFit(before) && ModulesFit(after) && Mapped(before, root, base, pas)
    requires Untouched(before, after, pas) && at + 8 <= |pas|
    requires forall t | at <= t < at + 8 :: RunRead(after, pas, t) == ToLe(word, 8)[t - at]
    ensures VirtReadBytes(after, root, RunByte(base, at), 8) == Ok(ToLe(word, 8))
  {
    var va := RunByte(base, at);
    var bs := ToLe(word, 8);
    forall i | 0 <= i < 8
      ensures VirtRead(after, root, ByteAddress(va, i)) == Ok(bs[i])
    {
      assert RunRead(after, pas, at + i) == bs[i];
      ReadBackByte(before, after, root, base, pas, at, word, i);
    }
    VirtReadBytesOf(after, root, va, bs);
  }

  /** A 64-bit read of memory whose eight bytes are those of `word` gives `word`. */
  lemma ReadWord(c: CoreState, va: u64, word: u64)
    requires Fit(c) && VirtReadBytes(c.regions, c.root, va, 8) == Ok(ToLe(word, 8))
    ensures ReadMem(c, va, W64) == Ok(word)
  {
    var r := ReadMem(c, va, W64);
    Pow256Table();
    FromLeToLe(r.value, 8);
    FromLeToLe(word, 8);
  }

  /** The four pushes of a frame mapped to distinct RAM bytes succeed and write only the frame. */
  lemma FramePushed(c: CoreState, error: u64, pas: seq<u64>)
    requires Fit(c) && |pas| == 32 && Mapped(c.regions, c.root, FrameBase(StackTop(c)), pas)
    ensures PushFrom(c.regions, c.root, StackTop(c), FrameWords(c, error), 0).1 == Ok(())
    ensures Untouched(c.regions, PushFrom(c.regions, c.root, StackTop(c), FrameWords(c, error), 0).0, pas)
  {
    assert Untouched(c.regions, c.regions, pas);
    PushWrites(c.regions, c.regions, c.root, StackTop(c), pas, FrameWords(c, error), 0);
  }

  /** After the four pushes, the eight frame bytes from `at = 24 - 8 * k` on hold frame word `k`. */
  lemma FrameHolds(c: CoreState, error: u64, pas: seq<u64>, k: nat, at: nat)
    requires Fit(c) && |pas| == 32 && Mapped(c.regions, c.root, FrameBase(StackTop(c)), pas) && k < 4
    requires at == 24 - 8 * k
    ensures var after := PushFrom(c.regions, c.root, StackTop(c), FrameWords(c, error), 0).0;
      forall t | at <= t < at + 8 :: RunRead(after, pas, t) == ToLe(FrameWords(c, error)[k], 8)[t - at]
  {
    var after := PushFrom(c.regions, c.root, StackTop(c), FrameWords(c, error), 0).0;
    assert Untouched(c.regions, c.regions, pas);
    forall t | at <= t < at + 8
      ensures RunRead(after, pas, t) == ToLe(FrameWords(c, error)[k], 8)[t - at]
    {
      PushStores(c.regions, c.regions, c.root, StackTop(c), pas, FrameWords(c, error), 0, k, at, t);
    }
  }

  /** After the four pushes, the eight bytes of frame word `k` read back, through the page tables, as that word's bytes. */
  lemma FrameBytesRead(c: CoreState, error: u64, pas: seq<u64>, k: nat, at: nat)
    requires Fit(c) && |pas| == 32 && Mapped(c.regions, c.root, FrameBase(StackTop(c)), pas) && k < 4
    requires at == 24 - 8 * k
    ensures VirtReadBytes(PushFrom(c.regions, c.root, StackTop(c), FrameWords(c, error), 0).0, c.root,
                          RunByte(FrameBase(StackTop(c)), at), 8) == Ok(ToLe(FrameWords(c, error)[k], 8))
  {
    var after := PushFrom(c.regions, c.root, StackTop(c), FrameWords(c, error), 0).0;
    FramePushed(c, error, pas);
    FrameHolds(c, error, pas, k, at);
    ReadBack(c.regions, after, c.root, FrameBase(StackTop(c)), pas, at, FrameWords(c, error)[k]);
  }

  /** In a core whose memory is that after the four pushes, frame word `k` reads back from its slot `at`. */
  lemma FrameWordReads(c: CoreState, error: u64, pas: seq<u64>, e: CoreState, k: nat, at: nat)
    requires Fit(c) && |pas| == 32 && Mapped(c.regions, c.root, FrameBase(StackTop(c)), pas) && k < 4
    requires at == 24 - 8 * k
    requires Fit(e) && e.root == c.root && e.regions == PushFrom(c.regions, c.root, StackTop(c), FrameWords(c, error), 0).0
    ensures ReadMem(e, RunByte(FrameBase(StackTop(c)), at), W64) == Ok(FrameWords(c, error)[k])
  {
    FrameBytesRead(c, error, pas, k, at);
    ReadWord(e, RunByte(FrameBase(StackTop(c)), at), FrameWords(c, error)[k]);
  }

  /** Bytes 8, 16 and 24 of the run from rsp are `rsp + 8`, `rsp + 16` and `rsp + 24`, wrapping, as `iret` computes them. */
  lemma SlotAbove(c: CoreState, e: CoreState)
    requires |c.regs| == 16 && |e.regs| == 16 && e.regs[SP] == FrameBase(StackTop(c))
    ensures RunByte(FrameBase(StackTop(c)), 8) == Wrap(e.regs[SP] as int + 8)
    ensures RunByte(FrameBase(StackTop(c)), 16) == Wrap(e.regs[SP] as int + 16)
    ensures RunByte(FrameBase(StackTop(c)), 24) == Wrap(e.regs[SP] as int + 24)
  {
  }

  /** In a core whose memory is that after the four pushes, every frame word reads back from its slot. */
  lemma FrameWordsRead(c: CoreState, error: u64, pas: seq<u64>, e: CoreState)
    requires Fit(c) && |pas| == 32 && Mapped(c.regions, c.root, FrameBase(StackTop(c)), pas)
    requires Fit(e) && e.root == c.root && e.regions == PushFrom(c.regions, c.root, StackTop(c), FrameWords(c, error), 0).0
    ensures forall k | 0 <= k < 4 ::
      ReadMem(e, RunByte(FrameBase(StackTop(c)), 24 - 8 * k), W64) == Ok(FrameWords(c, error)[k])
  {
    forall k | 0 <= k < 4
      ensures ReadMem(e, RunByte(FrameBase(StackTop(c)), 24 - 8 * k), W64) == Ok(FrameWords(c, error)[k])
    {
      FrameWordReads(c, error, pas, e, k, 24 - 8 * k);
    }
  }

  /** `iret` reads rip, the flags and rsp at 8, 16 and 24 bytes above rsp; when all three reads succeed, the frame is theirs. */
  lemma ReturnFrameOf(c: CoreState, error: u64, e: CoreState)
    requires |c.regs| == 16 && Fit(e)
    requires ReadMem(e, Wrap(e.regs[SP] as int + 8), W64).Ok? &&
             ReadMem(e, Wrap(e.regs[SP] as int + 8), W64).value == FrameWords(c, error)[2]
    requires ReadMem(e, Wrap(e.regs[SP] as int + 16), W64).Ok? &&
             ReadMem(e, Wrap(e.regs[SP] as int + 16), W64).value == FrameWords(c, error)[1]
    requires ReadMem(e, Wrap(e.regs[SP] as int + 24), W64).Ok? &&
             ReadMem(e, Wrap(e.regs[SP] as int + 24), W64).value == FrameWords(c, error)[0]
    ensures ReturnFrame(e).Ok? && ReturnFrame(e).value == (FrameWords(c, error)[2], FrameWords(c, error)[1], FrameWords(c, error)[0])
  {
  }

  /** With rsp at the frame base, `iret` reads back frame words 2, 1 and 0: rip, flags word and old rsp. */
  lemma FrameReadBack(c: CoreState, error: u64, pas: seq<u64>, e: CoreState)
    requires Fit(c) && |pas| == 32 && Mapped(c.regions, c.root, FrameBase(StackTop(c)), pas)
    requires Fit(e) && e.root == c.root && e.regions == PushFrom(c.regions, c.root, StackTop(c), FrameWords(c, error), 0).0
    requires e.regs[SP] == FrameBase(StackTop(c))
    ensures ReturnFrame(e).Ok? && ReturnFrame(e).value == (FrameWords(c, error)[2], FrameWords(c, error)[1], FrameWords(c, error)[0])
  {
    FrameWordsRead(c, error, pas, e);
    SlotAbove(c, e);
    assert ReadMem(e, RunByte(FrameBase(StackTop(c)), 8), W64) == Ok(FrameWords(c, error)[2]);
    assert ReadMem(e, RunByte(FrameBase(StackTop(c)), 16), W64) == Ok(FrameWords(c, error)[1]);
    assert ReadMem(e, RunByte(FrameBase(StackTop(c)), 24), W64) == Ok(FrameWords(c, error)[0]);
    ReturnFrameOf(c, error, e);
  }

  /**
   * `iret` right after a successful entry, with the frame mapped to distinct
   * RAM bytes that no page-table entry of the frame lies in: rip and all
   * sixteen registers (rsp included) are back, rflags is the whole pushed
   * flags word and the privilege level is read from its bits 32..39. When
   * the flags fit in 32 bits, this is the level and the flags the entry
   * started from.
   */
  lemma ReturnAfterEntry(c: CoreState, d: DescriptorEntry, error: u64, devices: seq<Device>, pas: seq<u64>)
    requires Fit(c) && Admits(d, c.cpl) && |pas| == 32
    requires Mapped(c.regions, c.root, FrameBase(StackTop(c)), pas)
    ensures EnterHandler(c, Some(d), error).Entered?
    ensures var entered := EnterHandler(c, Some(d), error).core;
      Return(entered, devices) ==
      Outcome(entered.(rip := c.rip, rflags := FlagsWord(c.cpl, c.rflags), regs := c.regs,
                       cpl := CplOf(FlagsWord(c.cpl, c.rflags))), devices, Stay)
    ensures c.rflags < 0x1_0000_0000 ==>
      Return(EnterHandler(c, Some(d), error).core, devices).core.cpl == c.cpl &&
      Return(EnterHandler(c, Some(d), error).core, devices).core.rflags % 0x1_0000_0000 == c.rflags
  {
    FramePushed(c, error, pas);
    var e := EnterHandler(c, Some(d), error).core;
    var base := FrameBase(StackTop(c));
    assert e.regs[SP] == base;
    FrameReadBack(c, error, pas, e);
    assert ReturnFrame(e) == Ok((c.rip, FlagsWord(c.cpl, c.rflags), c.regs[SP]));
    assert e.regs[SP := c.regs[SP]] == c.regs;
    if c.rflags < 0x1_0000_0000 {
      FlagsWordRoundTrip(c.cpl, c.rflags);
    }
  }
}
