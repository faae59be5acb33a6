/**
 * End-to-end properties of `PageMapper` on the tables of one architecture:
 * what `translate` answers after `map_phys`, `map`, `remap` and
 * `unmap_phys`, and what `unmap` returns to the allocator.
 */
module Theorems {
  import opened Wrappers
  import opened Paging
  import opened Walks
  import opened WalkProofs
  import opened MapProofs
  import opened UnmapProofs
  import Frames

  // ---------------------------------------------------------------------
  // Entries

  /** An entry made from an address and present flags decodes back to them. */
  lemma DecodeEntry(a: Arch, phys: Word, flags: PageFlags)
    requires MasksDisjoint(a) && a.flagPresent != 0
    requires InAddressMask(a, phys) && InFlagsMask(a, flags) && flags.Present(a)
    ensures Decode(a, phys | flags.data) == Some((phys, flags))
  {
    EntryPresentOf(a, phys, flags);
    EntryMaskedAddress(a, phys, flags);
    EntryFlagsOf(a, phys, flags);
  }

  /** A zero entry decodes to nothing. */
  lemma DecodeZero(a: Arch)
    ensures Decode(a, 0).None?
  {
  }

  // ---------------------------------------------------------------------
  // Lookups

  /** A walk that reaches a slot holding `entry` looks up what `entry` decodes to. */
  lemma LookupReaches(s: Steps, a: Arch, mem: Mem, t: PageTable, virt: Word, entry: Word)
    requires a.WellFormed() && IndexInTable(s, a) && Reaches(s, mem, t, virt, entry)
    ensures Lookup(s, a, mem, t, virt) == s.decode(entry)
  {
    var leaf := Walk(s, mem, t, virt).value;
    assert leaf.1 < a.entryNum;
  }

  /** A `map_phys` loop that lands leaves `virt` looking up what `entry` decodes to. */
  lemma MapFromLooksUp(s: Steps, g: NewTables, pool: set<nat> -> set<Word>, a: Arch, mem: Mem,
                       free: set<nat>, t: PageTable, virt: Word, entry: Word)
    requires CanLand(s, g, pool, a, mem, free, t, virt, {})
    requires MapFrom(s, g, a, mem, free, t, virt, entry, true).outcome.Mapped?
    ensures var r := MapFrom(s, g, a, mem, free, t, virt, entry, true);
      Lookup(s, a, r.mem, t, virt) == s.decode(entry) && r.free <= free
  {
    MapFromLands(s, g, pool, a, mem, free, t, virt, entry, {});
    LookupReaches(s, a, MapFrom(s, g, a, mem, free, t, virt, entry, true).mem, t, virt, entry);
  }

  // ---------------------------------------------------------------------
  // translate after map_phys and map

  /**
   * What the mapping theorems assume of the architecture and the allocator:
   * the architecture is well formed with disjoint address and flag masks and
   * a nonzero present bit, the flags of a table entry fit the flag mask, and
   * the allocator's frames have distinct 64-bit addresses inside the address
   * mask.
   */
  predicate Sound(a: Arch, fa: Frames.FrameAllocator, user: bool)
  {
    a.WellFormed() && MasksDisjoint(a) && a.flagPresent != 0 && InFlagsMask(a, TableFlags(a, user))
    && Fits(fa) && FramesFit(a, fa)
  }

  /** Under `Sound`, with the walk's tables distinct and not free, the mapping theorem's assumptions hold at the root. */
  lemma RootCanLand(a: Arch, fa: Frames.FrameAllocator, mem: Mem, free: set<nat>, root: Word, virt: Word, user: bool)
    requires Sound(a, fa, user)
    requires Separate(StepsOf(a), mem, Root(a, root), virt, FreeWords(fa, free))
    ensures CanLand(StepsOf(a), NewTablesOf(a, fa, user), FreePool(fa), a, mem, free, Root(a, root), virt, {})
  {
    StepsOfIndexInTable(a);
    StepsOfZeroLeadsNowhere(a);
    NewTablesOfSound(a, fa, user);
    assert {} + FreePool(fa)(free) == FreeWords(fa, free);
  }

  /** An aligned `map_phys` runs the loop from the root with the entry made from `phys` and `flags`. */
  lemma MapPhysLoop(a: Arch, fa: Frames.FrameAllocator, mem: Mem, free: set<nat>, root: Word,
                    virt: Word, phys: Word, flags: PageFlags, user: bool)
    requires a.WellFormed() && Aligned(a, virt) && Aligned(a, phys)
    ensures MapPhys(a, fa, mem, free, root, virt, phys, flags, user)
         == MapFrom(StepsOf(a), NewTablesOf(a, fa, user), a, mem, free, Root(a, root), virt, phys | flags.data, true)
  {
  }

  /**
   * After `map_phys` (with new tables zeroed) maps `virt`, `translate` of
   * `virt` gives the physical address and flags it was mapped with, and no
   * frame became free. The tables on the walk must be distinct and none of
   * them a free frame.
   */
  lemma MapThenTranslate(a: Arch, fa: Frames.FrameAllocator, mem: Mem, free: set<nat>, root: Word,
                         virt: Word, phys: Word, flags: PageFlags, user: bool)
    requires Sound(a, fa, user)
    requires Separate(StepsOf(a), mem, Root(a, root), virt, FreeWords(fa, free))
    requires InAddressMask(a, phys) && InFlagsMask(a, flags) && flags.Present(a)
    requires MapPhys(a, fa, mem, free, root, virt, phys, flags, user).outcome.Mapped?
    ensures var r := MapPhys(a, fa, mem, free, root, virt, phys, flags, user);
      Translate(a, r.mem, root, virt) == Some((phys, flags)) && r.free <= free
  {
    RootCanLand(a, fa, mem, free, root, virt, user);
    assert Aligned(a, virt) && Aligned(a, phys);
    MapPhysLoop(a, fa, mem, free, root, virt, phys, flags, user);
    MapFromLooksUp(StepsOf(a), NewTablesOf(a, fa, user), FreePool(fa), a, mem, free, Root(a, root), virt, phys | flags.data);
    DecodeEntry(a, phys, flags);
  }

  /** `map_phys` over an address that already translates panics, whether or not new tables are zeroed. */
  lemma MapOverMapping(s: Steps, g: NewTables, a: Arch, mem: Mem, free: set<nat>,
                       t: PageTable, virt: Word, entry: Word, clear: bool)
    requires a.WellFormed() && s.decode(0).None? && Lookup(s, a, mem, t, virt).Some?
    ensures MapFrom(s, g, a, mem, free, t, virt, entry, clear) == MapResult(AlreadyMapped, mem, free)
  {
    MapFromExistingPath(s, g, a, mem, free, t, virt, entry, clear);
  }

  /**
   * An aligned `map_phys` of an address `translate` already finds panics
   * with "already mapped", leaving the tables and the allocator as they
   * were.
   */
  lemma MapTranslatedPanics(a: Arch, fa: Frames.FrameAllocator, mem: Mem, free: set<nat>, root: Word,
                            virt: Word, phys: Word, flags: PageFlags, user: bool)
    requires a.WellFormed() && Aligned(a, virt) && Aligned(a, phys) && Translate(a, mem, root, virt).Some?
    ensures MapPhys(a, fa, mem, free, root, virt, phys, flags, user) == MapResult(AlreadyMapped, mem, free)
  {
    MapPhysLoop(a, fa, mem, free, root, virt, phys, flags, user);
    DecodeZero(a);
    MapOverMapping(StepsOf(a), NewTablesOf(a, fa, user), a, mem, free, Root(a, root), virt, phys | flags.data, true);
  }

  /** The walk's tables stay separate from a smaller set. */
  lemma {:induction false} SeparateSmaller(s: Steps, mem: Mem, t: PageTable, virt: Word, avoid: set<Word>, fewer: set<Word>)
    requires fewer <= avoid && Separate(s, mem, t, virt, avoid)
    ensures Separate(s, mem, t, virt, fewer)
    decreases t.level
  {
    if s.index(t, virt).Some? && t.level > 0 {
      var i := s.index(t, virt).value;
      if s.next(t, i, Read(mem, t.phys, i)).Some? {
        var n := s.next(t, i, Read(mem, t.phys, i)).value;
        SeparateSmaller(s, mem, PageTable(n.0, n.1, t.level - 1), virt, avoid + {t.phys}, fewer + {t.phys});
      }
    }
  }

  /** `map` is `map_phys` of the frame `allocate_one` hands out, once one is free. */
  lemma MapIsMapPhys(a: Arch, fa: Frames.FrameAllocator, mem: Mem, free: set<nat>, root: Word,
                     virt: Word, flags: PageFlags, user: bool)
    requires a.WellFormed() && Fits(fa) && AllocOne(fa, free).Some?
    ensures Map(a, fa, mem, free, root, virt, flags, user)
         == MapPhys(a, fa, mem, AllocOne(fa, free).value.1, root, virt, AllocOne(fa, free).value.0, flags, user)
  {
  }

  /**
   * After `map` maps `virt`, `translate` of `virt` gives a frame that was
   * free, and that frame is no longer free.
   */
  lemma MapThenTranslateFrame(a: Arch, fa: Frames.FrameAllocator, mem: Mem, free: set<nat>, root: Word,
                              virt: Word, flags: PageFlags, user: bool)
    requires Sound(a, fa, user)
    requires Separate(StepsOf(a), mem, Root(a, root), virt, FreeWords(fa, free))
    requires InFlagsMask(a, flags) && flags.Present(a)
    requires Map(a, fa, mem, free, root, virt, flags, user).outcome.Mapped?
    ensures AllocOne(fa, free).Some?
    ensures var phys := AllocOne(fa, free).value.0;
      var r := Map(a, fa, mem, free, root, virt, flags, user);
      Translate(a, r.mem, root, virt) == Some((phys, flags))
      && phys in FreeWords(fa, free) && phys !in FreeWords(fa, r.free) && r.free < free
  {
    var phys := AllocOne(fa, free).value.0;
    var rest := AllocOne(fa, free).value.1;
    AllocFresh(a, fa, free);
    SeparateSmaller(StepsOf(a), mem, Root(a, root), virt, FreeWords(fa, free), FreeWords(fa, rest));
    MapIsMapPhys(a, fa, mem, free, root, virt, flags, user);
    MapThenTranslate(a, fa, mem, rest, root, virt, phys, flags, user);
    FreeWordsSmaller(fa, Map(a, fa, mem, free, root, virt, flags, user).free, rest);
  }

  lemma FreeWordsSmaller(fa: Frames.FrameAllocator, fewer: set<nat>, free: set<nat>)
    requires Fits(fa) && fewer <= free
    ensures FreeWords(fa, fewer) <= FreeWords(fa, free)
  {
  }

  // ---------------------------------------------------------------------
  // remap

  /**
   * Giving any present entry `flags` keeps the table it links to and makes
   * it decode to its old address with `flags`.
   */
  ghost predicate FlagsRewritable(s: Steps, a: Arch, flags: PageFlags)
  {
    forall w :: s.decode(w).Some? ==>
      var w' := PageEntry(w).SetFlags(a, flags).data;
      SameLink(s, w, w') && s.decode(w') == Some((s.decode(w).value.0, flags))
  }

  /**
   * `remap` from `t` of an address that looks up something keeps its
   * address and gives it the new flags, when they can be rewritten.
   */
  lemma RemapFromThenLookup(s: Steps, a: Arch, mem: Mem, t: PageTable, virt: Word, flags: PageFlags)
    requires a.WellFormed() && IndexInTable(s, a) && FlagsRewritable(s, a, flags)
    requires Lookup(s, a, mem, t, virt).Some?
    ensures RemapFrom(s, a, mem, t, virt, flags).0 == Some(virt)
    ensures Lookup(s, a, RemapFrom(s, a, mem, t, virt, flags).1, t, virt)
         == Some((Lookup(s, a, mem, t, virt).value.0, flags))
  {
    var leaf := Walk(s, mem, t, virt).value;
    assert leaf.1 < a.entryNum;
    var w := Read(mem, leaf.0.phys, leaf.1);
    var w' := PageEntry(w).SetFlags(a, flags).data;
    WalkAfterWrite(s, mem, leaf.0.phys, leaf.1, w', t, virt);
  }

  /** Present flags inside the flag mask can be rewritten into the entries of `a`. */
  lemma StepsOfFlagsRewritable(a: Arch, flags: PageFlags)
    requires MasksDisjoint(a) && InFlagsMask(a, flags) && flags.Present(a) && a.flagPresent != 0
    ensures FlagsRewritable(StepsOf(a), a, flags)
  {
    forall w | StepsOf(a).decode(w).Some?
      ensures var w' := PageEntry(w).SetFlags(a, flags).data;
        SameLink(StepsOf(a), w, w') && StepsOf(a).decode(w') == Some((StepsOf(a).decode(w).value.0, flags))
    {
      FlagsRewritableAt(a, flags, w);
    }
  }

  lemma FlagsRewritableAt(a: Arch, flags: PageFlags, w: Word)
    requires MasksDisjoint(a) && InFlagsMask(a, flags) && flags.Present(a) && a.flagPresent != 0
    requires StepsOf(a).decode(w).Some?
    ensures var w' := PageEntry(w).SetFlags(a, flags).data;
      SameLink(StepsOf(a), w, w') && StepsOf(a).decode(w') == Some((StepsOf(a).decode(w).value.0, flags))
  {
    SetFlagsSameLink(a, PageEntry(w), flags);
    SetFlagsDecode(a, PageEntry(w), flags);
  }

  /** Present flags keep an entry present. */
  lemma SetFlagsStaysPresent(a: Arch, e: PageEntry, flags: PageFlags)
    requires MasksDisjoint(a) && flags.Present(a) && a.flagPresent != 0
    ensures e.SetFlags(a, flags).Present(a)
  {
    SetFlagsPresent(a, e, flags);
  }

  /** A present word decodes to its masked address and flag bits. */
  lemma DecodeOf(a: Arch, w: Word, paddr: Word, flags: PageFlags)
    requires PageEntry(w).Present(a) && w & a.pageAddressMask == paddr && w & a.entryFlagsMask == flags.data
    ensures Decode(a, w) == Some((paddr, flags))
  {
  }

  /** An entry given present flags decodes to its old address and the new flags. */
  lemma SetFlagsDecode(a: Arch, e: PageEntry, flags: PageFlags)
    requires MasksDisjoint(a) && InFlagsMask(a, flags) && flags.Present(a) && a.flagPresent != 0
    ensures Decode(a, e.SetFlags(a, flags).data) == Some((e.data & a.pageAddressMask, flags))
  {
    SetFlagsStaysPresent(a, e, flags);
    SetFlagsMaskedAddress(a, e, flags);
    SetFlagsFlags(a, e, flags);
    DecodeOf(a, e.SetFlags(a, flags).data, e.data & a.pageAddressMask, flags);
  }

  /** A present entry given present flags still links to the same table. */
  lemma SetFlagsSameLink(a: Arch, e: PageEntry, flags: PageFlags)
    requires MasksDisjoint(a) && InFlagsMask(a, flags) && flags.Present(a) && a.flagPresent != 0
    requires e.Present(a)
    ensures SameLink(StepsOf(a), e.data, e.SetFlags(a, flags).data)
  {
    SetFlagsStaysPresent(a, e, flags);
    SetFlagsMaskedAddress(a, e, flags);
    StepsOfSameLink(a, e.data, e.SetFlags(a, flags).data);
  }

  /** `remap` reports a flush exactly when the walk for `virt` reaches a last-level slot, and otherwise changes nothing. */
  lemma RemapFlushes(a: Arch, mem: Mem, root: Word, virt: Word, flags: PageFlags)
    requires a.WellFormed()
    ensures Remap(a, mem, root, virt, flags).0.Some? <==> Walk(StepsOf(a), mem, Root(a, root), virt).Some?
    ensures Remap(a, mem, root, virt, flags).0.Some? ==> Remap(a, mem, root, virt, flags).0 == Some(virt)
    ensures Remap(a, mem, root, virt, flags).0.None? ==> Remap(a, mem, root, virt, flags).1 == mem
  {
    StepsOfIndexInTable(a);
  }

  /**
   * `remap` of an address that translates keeps its physical address and
   * gives it the new flags, when they are present flags inside the flag
   * mask.
   */
  lemma RemapThenTranslate(a: Arch, mem: Mem, root: Word, virt: Word, flags: PageFlags)
    requires a.WellFormed() && MasksDisjoint(a) && a.flagPresent != 0
    requires InFlagsMask(a, flags) && flags.Present(a)
    requires Translate(a, mem, root, virt).Some?
    ensures Remap(a, mem, root, virt, flags).0 == Some(virt)
    ensures Translate(a, Remap(a, mem, root, virt, flags).1, root, virt)
         == Some((Translate(a, mem, root, virt).value.0, flags))
  {
    StepsOfIndexInTable(a);
    StepsOfFlagsRewritable(a, flags);
    RemapFromThenLookup(StepsOf(a), a, mem, Root(a, root), virt, flags);
  }

  // ---------------------------------------------------------------------
  // unmap_phys and unmap

  /** An unaligned `unmap_phys` is rejected and changes nothing. */
  lemma UnmapPhysUnaligned(a: Arch, fa: Frames.FrameAllocator, mem: Mem, free: set<nat>, root: Word,
                           virt: Word, parents: bool)
    requires a.WellFormed() && !Aligned(a, virt)
    ensures UnmapPhys(a, fa, mem, free, root, virt, parents) == UnmapResult(None, mem, free)
  {
  }

  /** An aligned `unmap_phys` returns what `translate` found. */
  lemma UnmapPhysReturnsTranslate(a: Arch, fa: Frames.FrameAllocator, mem: Mem, free: set<nat>, root: Word,
                                  virt: Word, parents: bool)
    requires a.WellFormed() && Aligned(a, virt)
    ensures UnmapPhys(a, fa, mem, free, root, virt, parents).result == Translate(a, mem, root, virt)
  {
    UnmapFromResult(StepsOf(a), TeardownOf(a, fa), a, mem, free, Root(a, root), virt, parents);
  }

  /** After `unmap_phys_inner`, nothing is found at `virt`. */
  lemma UnmapFromLooksUpNothing(s: Steps, d: Teardown, a: Arch, mem: Mem, free: set<nat>,
                                t: PageTable, virt: Word, parents: bool)
    requires a.WellFormed() && IndexInTable(s, a) && ZeroLeadsNowhere(s) && s.decode(0).None?
    ensures Lookup(s, a, UnmapFrom(s, d, a, mem, free, t, virt, parents).mem, t, virt) == None
  {
    var r := UnmapFrom(s, d, a, mem, free, t, virt, parents);
    UnmapFromZeroes(s, d, a, mem, free, t, virt, parents);
    if Walk(s, r.mem, t, virt).Some? {
      WalkThroughZeros(s, mem, r.mem, t, virt);
      var leaf := Walk(s, r.mem, t, virt).value;
      assert leaf.1 < a.entryNum;
    }
  }

  /** After an aligned `unmap_phys`, `translate` of `virt` finds nothing, and no frame stopped being free. */
  lemma UnmapThenTranslate(a: Arch, fa: Frames.FrameAllocator, mem: Mem, free: set<nat>, root: Word,
                           virt: Word, parents: bool)
    requires a.WellFormed() && Aligned(a, virt)
    ensures var r := UnmapPhys(a, fa, mem, free, root, virt, parents);
      Translate(a, r.mem, root, virt) == None && free <= r.free
  {
    StepsOfIndexInTable(a);
    StepsOfZeroLeadsNowhere(a);
    DecodeZero(a);
    UnmapFromLooksUpNothing(StepsOf(a), TeardownOf(a, fa), a, mem, free, Root(a, root), virt, parents);
    UnmapFromZeroes(StepsOf(a), TeardownOf(a, fa), a, mem, free, Root(a, root), virt, parents);
  }

  /**
   * `unmap` of an address that translates returns what `translate` found,
   * frees the frame it was mapped to, and keeps every free frame free.
   */
  lemma UnmapFreesFrame(a: Arch, fa: Frames.FrameAllocator, mem: Mem, free: set<nat>, root: Word,
                        virt: Word, parents: bool)
    requires a.WellFormed() && Aligned(a, virt) && Translate(a, mem, root, virt).Some?
    ensures var r := Unmap(a, fa, mem, free, root, virt, parents);
      r.result == Translate(a, mem, root, virt)
      && free <= r.free && fa.Freed(Usize(Translate(a, mem, root, virt).value.0), 1) <= r.free
      && Translate(a, r.mem, root, virt) == None
  {
    UnmapPhysReturnsTranslate(a, fa, mem, free, root, virt, parents);
    UnmapThenTranslate(a, fa, mem, free, root, virt, parents);
  }

  /**
   * Without `unmap_parents`, an aligned `unmap_phys` zeroes the last-level
   * slot the walk reaches, writes nothing else, and frees nothing.
   */
  lemma UnmapWithoutParents(a: Arch, fa: Frames.FrameAllocator, mem: Mem, free: set<nat>, root: Word, virt: Word)
    requires a.WellFormed() && Aligned(a, virt)
    ensures var r := UnmapPhys(a, fa, mem, free, root, virt, false);
      r.free == free && r.mem == ClearLeaf(StepsOf(a), a, mem, Root(a, root), virt)
  {
    UnmapFromWithoutParents(StepsOf(a), TeardownOf(a, fa), a, mem, free, Root(a, root), virt);
  }
}
