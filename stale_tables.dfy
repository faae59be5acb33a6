/**
 * A concrete run of `map_phys` in kernel/src/mm/page.rs on x86_64 over
 * frames that still hold old entries. The code as written links a freshly
 * allocated frame as a page table without zeroing it, so the walk follows
 * the stale entries and ends in the "already mapped" panic; with the new
 * tables zeroed, the same call maps the page.
 *
 * The root table is at 0x1000, frames 2, 3 and 4 (at 0x2000, 0x3000 and
 * 0x4000) are free, and each holds, in slot 0, a present link to the next
 * frame. Mapping virtual address 0 to 0x7000 with flags present|writable
 * allocates frames 2, 3 and 4 in that order as the tables of levels 2, 1
 * and 0.
 */
module StaleTables {
  import opened Wrappers
  import opened Paging
  import opened Walks
  import opened WalkProofs
  import opened MapProofs
  import Frames

  /** Address 0 falls in slot 0 of any table whose range starts at 0. */
  lemma FirstIndex(t: PageTable)
    requires ValidTable(X86_64, t) && t.base == 0
    ensures StepsOf(X86_64).index(t, 0) == Some(0)
  {
    StepsOfIndex(X86_64, t, 0);
    var shift := X86_64.Shift(t.level);
    assert (0 as Word) & X86_64.pageAddressMask == 0;
    assert ((0 as Word) - 0) >> shift == 0;
  }

  /** Slot 0 of every table on the walk for address 0 is slot 0. */
  lemma X86FirstEntries()
    ensures StepsOf(X86_64).index(PageTable(0, 0x1000, 3), 0) == Some(0)
    ensures StepsOf(X86_64).index(PageTable(0, 0x2000, 2), 0) == Some(0)
    ensures StepsOf(X86_64).index(PageTable(0, 0x3000, 1), 0) == Some(0)
    ensures StepsOf(X86_64).index(PageTable(0, 0x4000, 0), 0) == Some(0)
  {
    X86WellFormed();
    FirstIndex(PageTable(0, 0x1000, 3));
    FirstIndex(PageTable(0, 0x2000, 2));
    FirstIndex(PageTable(0, 0x3000, 1));
    FirstIndex(PageTable(0, 0x4000, 0));
  }

  /** A present link in slot 0 of a table whose range starts at 0 leads to a table whose range starts at 0. */
  lemma FirstLink(t: PageTable, w: Word)
    requires ValidTable(X86_64, t) && t.base == 0 && t.level > 0 && w & 1 == 1
    ensures StepsOf(X86_64).next(t, 0, w) == Some((0, w & 0x0000_ffff_ffff_f000))
  {
    var shift := X86_64.Shift(t.level);
    assert (0 as Word) << shift == 0;
    assert PageEntry(w).Present(X86_64);
  }

  /** The links the walk for address 0 follows, one per level. */
  lemma X86FirstLinks()
    ensures StepsOf(X86_64).next(PageTable(0, 0x1000, 3), 0, 0x2003) == Some((0, 0x2000))
    ensures StepsOf(X86_64).next(PageTable(0, 0x2000, 2), 0, 0x3003) == Some((0, 0x3000))
    ensures StepsOf(X86_64).next(PageTable(0, 0x3000, 1), 0, 0x4003) == Some((0, 0x4000))
  {
    X86WellFormed();
    FirstLink(PageTable(0, 0x1000, 3), 0x2003);
    FirstLink(PageTable(0, 0x2000, 2), 0x3003);
    FirstLink(PageTable(0, 0x3000, 1), 0x4003);
  }

  /** Memory in which the free frames 2, 3 and 4 still hold present links in slot 0. */
  function StaleFrames(): Mem
  {
    map[(0x2000, 0) := 0x3003, (0x3000, 0) := 0x4003, (0x4000, 0) := 0x5003]
  }

  /**
   * A frame allocator over five frames whose frames 2, 3 and 4 start at
   * 0x2000, 0x3000 and 0x4000 (stated as a hypothesis: the conversion of
   * frame numbers to 64-bit words is not evaluated by the verifier).
   */
  predicate LowFrames(fa: Frames.FrameAllocator)
  {
    Fits(fa) && fa.frameCount == 5
    && FrameWord(fa, 2) == 0x2000 && FrameWord(fa, 3) == 0x3000 && FrameWord(fa, 4) == 0x4000
  }

  /** The allocator hands out the lowest free frame. */
  lemma FirstFree(fa: Frames.FrameAllocator, free: set<nat>, f: nat)
    requires fa.frameCount == 5 && f in free && f < 5 && forall g :: g < f ==> g !in free
    ensures fa.Allocation(free, 1) == Some(f)
  {
    assert Frames.RunFree(free, f, 1);
    var r := Frames.LowestRun(free, 1, 0, 5);
    assert r.value in free by { assert Frames.RunFree(free, r.value, 1); }
  }

  lemma AllocLowest(fa: Frames.FrameAllocator, free: set<nat>, f: nat)
    requires LowFrames(fa) && f in free && f < 5 && forall g :: g < f ==> g !in free
    ensures NewTablesOf(X86_64, fa, false).allocate(free) == Some((FrameWord(fa, f), free - {f}))
  {
    FirstFree(fa, free, f);
  }

  lemma TableLink(fa: Frames.FrameAllocator)
    ensures NewTablesOf(X86_64, fa, false).link(0x2000) == 0x2003
    ensures NewTablesOf(X86_64, fa, false).link(0x3000) == 0x3003
    ensures NewTablesOf(X86_64, fa, false).link(0x4000) == 0x4003
  {
  }

  /** As written: the first new table (frame 2) is linked under the root without being zeroed. */
  lemma AsWrittenRoot(fa: Frames.FrameAllocator, entry: Word)
    requires LowFrames(fa)
    ensures var linked := Write(StaleFrames(), 0x1000, 0, 0x2003);
      MapFrom(StepsOf(X86_64), NewTablesOf(X86_64, fa, false), X86_64, StaleFrames(), {2, 3, 4}, PageTable(0, 0x1000, 3), 0, entry, false)
      == MapFrom(StepsOf(X86_64), NewTablesOf(X86_64, fa, false), X86_64, linked, {3, 4}, PageTable(0, 0x2000, 2), 0, entry, false)
  {
    X86WellFormed();
    X86FirstEntries();
    X86FirstLinks();
    StepsOfZeroLeadsNowhere(X86_64);
    TableLink(fa);
    AllocLowest(fa, {2, 3, 4}, 2);
    assert {2, 3, 4} - {2} == {3, 4};
    MapGrow(StepsOf(X86_64), NewTablesOf(X86_64, fa, false), X86_64, StaleFrames(), {2, 3, 4},
            PageTable(0, 0x1000, 3), 0, entry, false, 0, (0, 0x2000));
  }

  /** As written: below that, the walk follows the stale links and finds the last-level slot already present. */
  lemma AsWrittenStale(fa: Frames.FrameAllocator, entry: Word)
    ensures var linked := Write(StaleFrames(), 0x1000, 0, 0x2003);
      MapFrom(StepsOf(X86_64), NewTablesOf(X86_64, fa, false), X86_64, linked, {3, 4}, PageTable(0, 0x2000, 2), 0, entry, false).outcome
      == AlreadyMapped
  {
    X86WellFormed();
    X86FirstEntries();
    X86FirstLinks();
    var a, s, g := X86_64, StepsOf(X86_64), NewTablesOf(X86_64, fa, false);
    var linked := Write(StaleFrames(), 0x1000, 0, 0x2003);
    assert Read(linked, 0x2000, 0) == 0x3003;
    MapDescend(s, g, a, linked, {3, 4}, PageTable(0, 0x2000, 2), 0, entry, false, 0, (0, 0x3000));
    assert Read(linked, 0x3000, 0) == 0x4003;
    MapDescend(s, g, a, linked, {3, 4}, PageTable(0, 0x3000, 1), 0, entry, false, 0, (0, 0x4000));
    MapLeaf(s, g, a, linked, {3, 4}, PageTable(0, 0x4000, 0), 0, entry, false);
  }

  /** The call of the run, as written and with zeroing: the loop from the root at 0x1000 with entry word 0x7003. */
  lemma TheCall(fa: Frames.FrameAllocator)
    ensures MapPhysAsWritten(X86_64, fa, StaleFrames(), {2, 3, 4}, 0x1000, 0, 0x7000, PageFlags(3), false)
         == MapFrom(StepsOf(X86_64), NewTablesOf(X86_64, fa, false), X86_64, StaleFrames(), {2, 3, 4},
                    PageTable(0, 0x1000, 3), 0, 0x7003, false)
    ensures MapPhys(X86_64, fa, StaleFrames(), {2, 3, 4}, 0x1000, 0, 0x7000, PageFlags(3), false)
         == MapFrom(StepsOf(X86_64), NewTablesOf(X86_64, fa, false), X86_64, StaleFrames(), {2, 3, 4},
                    PageTable(0, 0x1000, 3), 0, 0x7003, true)
  {
    X86WellFormed();
    assert Aligned(X86_64, 0) && Aligned(X86_64, 0x7000);
    assert Root(X86_64, 0x1000) == PageTable(0, 0x1000, 3);
  }

  /** As written, mapping address 0 over the stale frames panics with "already mapped". */
  lemma MapPhysAsWrittenHitsStaleEntry(fa: Frames.FrameAllocator)
    requires LowFrames(fa)
    ensures MapPhysAsWritten(X86_64, fa, StaleFrames(), {2, 3, 4}, 0x1000, 0, 0x7000, PageFlags(3), false).outcome
         == AlreadyMapped
  {
    TheCall(fa);
    AsWrittenRoot(fa, 0x7003);
    AsWrittenStale(fa, 0x7003);
  }

  /**
   * The new tables of the run: `g` hands out the frames at 0x2000, 0x3000
   * and 0x4000 in turn and links each with flags present|writable.
   */
  predicate LowTables(g: NewTables)
  {
    g.allocate({2, 3, 4}) == Some((0x2000, {3, 4})) && g.link(0x2000) == 0x2003
    && g.allocate({3, 4}) == Some((0x3000, {4})) && g.link(0x3000) == 0x3003
    && g.allocate({4}) == Some((0x4000, {})) && g.link(0x4000) == 0x4003
  }

  lemma LowFramesLowTables(fa: Frames.FrameAllocator)
    requires LowFrames(fa)
    ensures LowTables(NewTablesOf(X86_64, fa, false))
  {
    TableLink(fa);
    AllocLowest(fa, {2, 3, 4}, 2);
    assert {2, 3, 4} - {2} == {3, 4};
    AllocLowest(fa, {3, 4}, 3);
    assert {3, 4} - {3} == {4};
    AllocLowest(fa, {4}, 4);
    assert {4} - {4} == {};
  }

  /** With zeroing: one new table is zeroed, linked into slot 0 and entered. */
  lemma ZeroedGrow(g: NewTables, m: Mem, free: set<nat>, rest: set<nat>, t: PageTable, frame: Word, entry: Word)
    requires X86_64.WellFormed() && g.allocate(free) == Some((frame, rest)) && g.link(frame) == frame | 3
    requires t.level > 0 && StepsOf(X86_64).index(t, 0) == Some(0) && Read(m, t.phys, 0) == 0
    requires StepsOf(X86_64).next(t, 0, frame | 3) == Some((0, frame))
    ensures MapFrom(StepsOf(X86_64), g, X86_64, m, free, t, 0, entry, true)
         == MapFrom(StepsOf(X86_64), g, X86_64, LinkTable(X86_64, m, t, 0, frame, frame | 3, true),
                    rest, PageTable(0, frame, t.level - 1), 0, entry, true)
  {
    StepsOfZeroLeadsNowhere(X86_64);
    assert Read(LinkTable(X86_64, m, t, 0, frame, frame | 3, true), t.phys, 0) == frame | 3;
    MapGrow(StepsOf(X86_64), g, X86_64, m, free, t, 0, entry, true, 0, (0, frame));
  }

  /** The stale tables after the root slot is linked to the frame at 0x2000. */
  function RootLinked(): Mem
  {
    LinkTable(X86_64, StaleFrames(), PageTable(0, 0x1000, 3), 0, 0x2000, 0x2003, true)
  }

  /** With zeroing, the first step from the root. */
  lemma ZeroedRoot(g: NewTables, entry: Word)
    requires LowTables(g)
    ensures MapFrom(StepsOf(X86_64), g, X86_64, StaleFrames(), {2, 3, 4}, PageTable(0, 0x1000, 3), 0, entry, true)
         == MapFrom(StepsOf(X86_64), g, X86_64, RootLinked(), {3, 4}, PageTable(0, 0x2000, 2), 0, entry, true)
    ensures Read(RootLinked(), 0x2000, 0) == 0
  {
    X86WellFormed();
    X86FirstEntries();
    X86FirstLinks();
    ZeroedGrow(g, StaleFrames(), {2, 3, 4}, {3, 4}, PageTable(0, 0x1000, 3), 0x2000, entry);
    LinkTableZeroed(X86_64, StaleFrames(), PageTable(0, 0x1000, 3), 0, 0x2000, 0x2003);
  }

  /** With zeroing, the step from the level-2 table. */
  lemma ZeroedMid(g: NewTables, m: Mem, entry: Word)
    requires LowTables(g) && Read(m, 0x2000, 0) == 0
    ensures MapFrom(StepsOf(X86_64), g, X86_64, m, {3, 4}, PageTable(0, 0x2000, 2), 0, entry, true)
         == MapFrom(StepsOf(X86_64), g, X86_64,
                    LinkTable(X86_64, m, PageTable(0, 0x2000, 2), 0, 0x3000, 0x3003, true), {4}, PageTable(0, 0x3000, 1), 0, entry, true)
    ensures Read(LinkTable(X86_64, m, PageTable(0, 0x2000, 2), 0, 0x3000, 0x3003, true), 0x3000, 0) == 0
  {
    X86WellFormed();
    X86FirstEntries();
    X86FirstLinks();
    ZeroedGrow(g, m, {3, 4}, {4}, PageTable(0, 0x2000, 2), 0x3000, entry);
    LinkTableZeroed(X86_64, m, PageTable(0, 0x2000, 2), 0, 0x3000, 0x3003);
  }

  /** With zeroing, the step from the level-1 table and the store into the last-level table. */
  lemma ZeroedLower(g: NewTables, m: Mem, entry: Word)
    requires LowTables(g) && Read(m, 0x3000, 0) == 0
    ensures MapFrom(StepsOf(X86_64), g, X86_64, m, {4}, PageTable(0, 0x3000, 1), 0, entry, true).outcome
         == Mapped(0)
  {
    X86WellFormed();
    X86FirstEntries();
    X86FirstLinks();
    var t1 := PageTable(0, 0x3000, 1);
    ZeroedGrow(g, m, {4}, {}, t1, 0x4000, entry);
    LinkTableZeroed(X86_64, m, t1, 0, 0x4000, 0x4003);
    MapLeaf(StepsOf(X86_64), g, X86_64, LinkTable(X86_64, m, t1, 0, 0x4000, 0x4003, true), {},
            PageTable(0, 0x4000, 0), 0, entry, true);
  }

  /** With the new tables zeroed, the same call maps the page and returns the flush for address 0. */
  lemma MapPhysZeroesNewTables(fa: Frames.FrameAllocator)
    requires LowFrames(fa)
    ensures MapPhys(X86_64, fa, StaleFrames(), {2, 3, 4}, 0x1000, 0, 0x7000, PageFlags(3), false).outcome
         == Mapped(0)
  {
    var g := NewTablesOf(X86_64, fa, false);
    var entry: Word := 0x7003;
    TheCall(fa);
    LowFramesLowTables(fa);
    ZeroedRoot(g, entry);
    ZeroedMid(g, RootLinked(), entry);
    ZeroedLower(g, LinkTable(X86_64, RootLinked(), PageTable(0, 0x2000, 2), 0, 0x3000, 0x3003, true), entry);
  }
}
