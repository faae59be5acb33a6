/**
 * The operations of `PageMapper` in kernel/src/mm/page.rs as functions of
 * the memory holding the tables and of the allocator's free frames: the
 * walk `visit` makes, `translate`, `remap`, `map_phys`, `map`, and the
 * recursive `unmap_phys_inner` with `unmap_phys` and `unmap`.
 *
 * Every walk takes its two architecture-dependent steps, `index_of` and
 * `next_level_table`, from a `Steps` value. The lemmas about walks hold for
 * any steps that meet a few stated conditions, and `StepsOf(a)` is the
 * instance built from an `Arch`, proved to meet them.
 */
module Walks {
  import opened Wrappers
  import opened Paging
  import Frames

  // ---------------------------------------------------------------------
  // Frames for new tables

  /** The allocator's frames all have 64-bit addresses. */
  predicate Fits(fa: Frames.FrameAllocator)
  {
    fa.frameCount * fa.pageSize <= Frames.USIZE_LIMIT
  }

  /** The physical address of frame `f`, as a word. */
  function FrameWord(fa: Frames.FrameAllocator, f: nat): Word
    requires Fits(fa) && f < fa.frameCount
  {
    Frames.MulStep(f, fa.frameCount, fa.pageSize);
    WordOf(f * fa.pageSize)
  }

  /** An address the allocator hands out, as a word. */
  function WordOf(x: Frames.usize): Word
  {
    x as Word
  }

  /** A physical address as the allocator's `usize`. */
  function Usize(w: Word): Frames.usize
  {
    w as int
  }

  /** The addresses of the free frames. */
  function FreeWords(fa: Frames.FrameAllocator, free: set<nat>): set<Word>
    requires Fits(fa)
  {
    set f | f in free && f < fa.frameCount :: FrameWord(fa, f)
  }

  /** `allocate_one` as the mapper sees it: the address it returns and the frames left free. */
  function AllocOne(fa: Frames.FrameAllocator, free: set<nat>): (r: Option<(Word, set<nat>)>)
    requires Fits(fa)
    ensures r.None? <==> fa.Allocation(free, 1).None?
    ensures r.Some? ==>
      var f := fa.Allocation(free, 1).value;
      f in free && f < fa.frameCount && r.value == (FrameWord(fa, f), free - {f})
  {
    match fa.Allocation(free, 1)
    case None => None
    case Some(f) =>
      assert f in Frames.Run(f, 1);
      Some((FrameWord(fa, f), free - {f}))
  }

  /**
   * What the end-to-end mapping theorem needs of the allocator's addresses:
   * distinct frames have distinct addresses, each inside the address mask.
   */
  predicate FramesFit(a: Arch, fa: Frames.FrameAllocator)
    requires Fits(fa)
  {
    (forall f: nat :: f < fa.frameCount ==> InAddressMask(a, FrameWord(fa, f)))
    && (forall f: nat, g: nat :: f < fa.frameCount && g < fa.frameCount && f != g ==> FrameWord(fa, f) != FrameWord(fa, g))
  }

  /**
   * Where `map_phys` gets a new table from: `allocate(free)` is the address
   * `allocate_one` returns and the frames left free, and `link(frame)` the
   * entry word that links the table at `frame` into its parent.
   */
  datatype NewTables = NewTables(allocate: set<nat> -> Option<(Word, set<nat>)>, link: Word -> Word)

  /** `map_phys`'s new tables with allocator `fa`, linked read-write and, for a user address, user-accessible. */
  function NewTablesOf(a: Arch, fa: Frames.FrameAllocator, user: bool): NewTables
  {
    NewTables((free: set<nat>) => if Fits(fa) then AllocOne(fa, free) else None,
              (frame: Word) => frame | TableFlags(a, user).data)
  }

  /** The flags `map_phys` gives the entry linking a new table: read-write, `DEFAULT_TABLE`, and `USER` for a user address. */
  function TableFlags(a: Arch, user: bool): PageFlags
  {
    PageFlags(a.flagReadWrite | a.flagDefaultTable | (if user then a.flagUser else 0))
  }

  // ---------------------------------------------------------------------
  // The steps of a walk

  /**
   * `index(t, virt)` is `t.index_of(virt)`; `next(t, i, w)` is the base and
   * physical address of the table `t.next_level_table(i)` returns when entry
   * `i` of `t` holds the word `w`, one level below `t`; `decode(w)` is the
   * address and flags of the entry word `w`, None if it is not present.
   */
  datatype Steps = Steps(index: (PageTable, Word) -> Option<nat>,
                         next: (PageTable, nat, Word) -> Option<(Word, Word)>,
                         decode: Word -> Option<(Word, PageFlags)>)

  /** `next_level_table` of table `t` whose entry `i` holds `w`, as a base and an address. */
  function Link(a: Arch, t: PageTable, i: nat, w: Word): Option<(Word, Word)>
    requires ValidTable(a, t)
  {
    if t.level == 0 || i >= a.entryNum || !PageEntry(w).Present(a) then None
    else Some((EntryBase(a, t, i).value, w & a.pageAddressMask))
  }

  /** `entry.address().ok()` with `entry.flags()`, as `translate` and `unmap_phys_inner` read an entry. */
  function Decode(a: Arch, w: Word): (r: Option<(Word, PageFlags)>)
    ensures r.Some? <==> PageEntry(w).Present(a)
    ensures r.Some? ==> r.value == (w & a.pageAddressMask, PageEntry(w).Flags(a))
  {
    match PageEntry(w).Address(a)
    case Err(_) => None
    case Ok(paddr) => Some((paddr, PageEntry(w).Flags(a)))
  }

  /** The steps of architecture `a`; a table that is not one of `a`'s leads nowhere. */
  function StepsOf(a: Arch): Steps
  {
    Steps((t: PageTable, virt: Word) => if ValidTable(a, t) then IndexOf(a, t, virt) else None,
          (t: PageTable, i: nat, w: Word) => if ValidTable(a, t) then Link(a, t, i, w) else None,
          (w: Word) => Decode(a, w))
  }

  /**
   * The steps of architecture `a` with `index_of` as written, which ignores
   * a table's base; `next_level_table` and the decoding are the same.
   */
  function StepsAsWrittenOf(a: Arch): Steps
  {
    Steps((t: PageTable, virt: Word) => if ValidTable(a, t) then IndexOfAsWritten(a, t, virt) else None,
          (t: PageTable, i: nat, w: Word) => if ValidTable(a, t) then Link(a, t, i, w) else None,
          (w: Word) => Decode(a, w))
  }

  /** Indexes fall inside a table. */
  ghost predicate IndexInTable(s: Steps, a: Arch)
  {
    forall t, virt :: s.index(t, virt).Some? ==> s.index(t, virt).value < a.entryNum
  }

  /** A zero entry leads nowhere. */
  ghost predicate ZeroLeadsNowhere(s: Steps)
  {
    forall t, i :: s.next(t, i, 0).None?
  }

  /** The next table is at the address held in the entry. */
  ghost predicate NextAtAddress(s: Steps, a: Arch)
  {
    forall t, i, w :: s.next(t, i, w).Some? ==> s.next(t, i, w).value.1 == w & a.pageAddressMask
  }

  /** Two entry words that `next` cannot tell apart. */
  ghost predicate SameLink(s: Steps, w1: Word, w2: Word)
  {
    forall t, i :: s.next(t, i, w1) == s.next(t, i, w2)
  }

  /**
   * The tables the walk for `virt` passes through from `t` are distinct and
   * none of them is in `avoid`.
   */
  ghost predicate Separate(s: Steps, mem: Mem, t: PageTable, virt: Word, avoid: set<Word>)
    decreases t.level
  {
    t.phys !in avoid
    && match s.index(t, virt)
       case None => true
       case Some(i) =>
         t.level == 0
         || match s.next(t, i, Read(mem, t.phys, i))
            case None => true
            case Some((base, phys)) => Separate(s, mem, PageTable(base, phys, t.level - 1), virt, avoid + {t.phys})
  }

  // ---------------------------------------------------------------------
  // visit, translate, remap

  /** The last-level table and index `visit` reaches for `virt`, if every table on the way is present. */
  function Walk(s: Steps, mem: Mem, t: PageTable, virt: Word): (r: Option<(PageTable, nat)>)
    ensures r.Some? ==> r.value.0.level == 0 && s.index(r.value.0, virt) == Some(r.value.1)
    decreases t.level
  {
    match s.index(t, virt)
    case None => None
    case Some(i) =>
      if t.level == 0 then Some((t, i))
      else
        match s.next(t, i, Read(mem, t.phys, i))
        case None => None
        case Some((base, phys)) => Walk(s, mem, PageTable(base, phys, t.level - 1), virt)
  }

  /** The walk for `virt` from `t` reaches a slot holding `entry`. */
  ghost predicate Reaches(s: Steps, mem: Mem, t: PageTable, virt: Word, entry: Word)
  {
    Walk(s, mem, t, virt).Some?
    && Read(mem, Walk(s, mem, t, virt).value.0.phys, Walk(s, mem, t, virt).value.1) == entry
  }

  /** The address and flags of the entry a walk from `t` reaches, if it is present. */
  function Lookup(s: Steps, a: Arch, mem: Mem, t: PageTable, virt: Word): Option<(Word, PageFlags)>
    requires a.WellFormed()
  {
    match Walk(s, mem, t, virt)
    case None => None
    case Some((leaf, i)) =>
      match Entry(a, mem, leaf, i)
      case None => None
      case Some(e) => s.decode(e.data)
  }

  /** The root table of the mapper whose root is at `root`: base 0, top level. */
  function Root(a: Arch, root: Word): (t: PageTable)
    requires a.WellFormed()
    ensures ValidTable(a, t)
  {
    PageTable(0, root, a.pageLevels - 1)
  }

  /** `translate`: the lookup from the root. */
  function Translate(a: Arch, mem: Mem, root: Word, virt: Word): Option<(Word, PageFlags)>
    requires a.WellFormed()
  {
    Lookup(StepsOf(a), a, mem, Root(a, root), virt)
  }

  /** The closure `remap` passes to `visit`, from table `t`: the entry the walk reaches gets `flags`; the flush for `virt` and the memory left. */
  function RemapFrom(s: Steps, a: Arch, mem: Mem, t: PageTable, virt: Word, flags: PageFlags): (Option<Word>, Mem)
    requires a.WellFormed()
  {
    match Walk(s, mem, t, virt)
    case None => (None, mem)
    case Some((leaf, i)) =>
      match Entry(a, mem, leaf, i)
      case None => (None, mem)
      case Some(e) => (Some(virt), SetEntry(a, mem, leaf, i, e.SetFlags(a, flags)))
  }

  /** `remap`: the walk from the root with the closure above. */
  function Remap(a: Arch, mem: Mem, root: Word, virt: Word, flags: PageFlags): (Option<Word>, Mem)
    requires a.WellFormed()
  {
    RemapFrom(StepsOf(a), a, mem, Root(a, root), virt, flags)
  }

  // ---------------------------------------------------------------------
  // map_phys and map

  /** How `map_phys` ends: a flush for `virt`, None, or the "already mapped" panic. */
  datatype MapOutcome = Mapped(flush: Word) | NotMapped | AlreadyMapped

  datatype MapResult = MapResult(outcome: MapOutcome, mem: Mem, free: set<nat>)

  /**
   * The memory after `map_phys` links the table at `frame` into entry `i` of
   * `t` with the entry word `link`; with `clear`, the new table is zeroed
   * first.
   */
  function LinkTable(a: Arch, mem: Mem, t: PageTable, i: nat, frame: Word, link: Word, clear: bool): Mem
    requires a.WellFormed()
  {
    var zeroed := if clear then Cleared(mem, frame, a.entryNum) else mem;
    SetEntry(a, zeroed, t, i, PageEntry(link))
  }

  /**
   * The loop of `map_phys` from table `t` down: descend through present
   * entries, allocate and link a table where there is none, and at the last
   * level write `entry` unless the slot is already nonzero. With `clear`, a
   * new table is zeroed before it is linked.
   */
  function MapFrom(s: Steps, g: NewTables, a: Arch, mem: Mem, free: set<nat>, t: PageTable,
                   virt: Word, entry: Word, clear: bool): MapResult
    requires a.WellFormed()
    decreases t.level
  {
    match s.index(t, virt)
    case None => MapResult(NotMapped, mem, free)
    case Some(i) =>
      if t.level == 0 then
        match EntryMapped(a, mem, t, i)
        case None => MapResult(NotMapped, mem, free)
        case Some(mapped) =>
          if mapped then MapResult(AlreadyMapped, mem, free)
          else MapResult(Mapped(virt), SetEntry(a, mem, t, i, PageEntry(entry)), free)
      else
        match s.next(t, i, Read(mem, t.phys, i))
        case Some((base, phys)) => MapFrom(s, g, a, mem, free, PageTable(base, phys, t.level - 1), virt, entry, clear)
        case None =>
          match g.allocate(free)
          case None => MapResult(NotMapped, mem, free)
          case Some((frame, rest)) =>
            var linked := LinkTable(a, mem, t, i, frame, g.link(frame), clear);
            match s.next(t, i, Read(linked, t.phys, i))
            case None => MapResult(NotMapped, linked, rest)
            case Some((base, phys)) => MapFrom(s, g, a, linked, rest, PageTable(base, phys, t.level - 1), virt, entry, clear)
  }

  /** `map_phys` as written: a new table is linked with whatever its frame held. */
  function MapPhysAsWritten(a: Arch, fa: Frames.FrameAllocator, mem: Mem, free: set<nat>, root: Word,
                            virt: Word, phys: Word, flags: PageFlags, user: bool): MapResult
    requires a.WellFormed()
  {
    if !(Aligned(a, virt) && Aligned(a, phys)) then MapResult(NotMapped, mem, free)
    else MapFrom(StepsOf(a), NewTablesOf(a, fa, user), a, mem, free, Root(a, root), virt, phys | flags.data, false)
  }

  /** `map_phys` with a new table zeroed before it is linked. */
  function MapPhys(a: Arch, fa: Frames.FrameAllocator, mem: Mem, free: set<nat>, root: Word,
                   virt: Word, phys: Word, flags: PageFlags, user: bool): MapResult
    requires a.WellFormed()
  {
    if !(Aligned(a, virt) && Aligned(a, phys)) then MapResult(NotMapped, mem, free)
    else MapFrom(StepsOf(a), NewTablesOf(a, fa, user), a, mem, free, Root(a, root), virt, phys | flags.data, true)
  }

  /** `map`: a frame from the allocator, mapped at `virt` with `map_phys`. */
  function Map(a: Arch, fa: Frames.FrameAllocator, mem: Mem, free: set<nat>, root: Word,
               virt: Word, flags: PageFlags, user: bool): MapResult
    requires a.WellFormed() && Fits(fa)
  {
    match AllocOne(fa, free)
    case None => MapResult(NotMapped, mem, free)
    case Some((phys, rest)) => MapPhys(a, fa, mem, rest, root, virt, phys, flags, user)
  }

  // ---------------------------------------------------------------------
  // unmap_phys_inner, unmap_phys and unmap

  datatype UnmapResult = UnmapResult(result: Option<(Word, PageFlags)>, mem: Mem, free: set<nat>)

  /**
   * How `unmap_phys_inner` tears down a table: `empty(mem, phys)` says no
   * entry of the table at `phys` is present, and `release(phys)` is the set
   * of frames `free_one(phys)` returns to the allocator.
   */
  datatype Teardown = Teardown(empty: (Mem, Word) -> bool, release: Word -> set<nat>)

  /** Whether some entry of the table at `phys` is present. */
  ghost predicate AnyEntryPresent(a: Arch, mem: Mem, phys: Word)
  {
    exists k: nat :: k < a.entryNum && PageEntry(Read(mem, phys, k)).Present(a)
  }

  /** The teardown of architecture `a` with allocator `fa`. */
  ghost function TeardownOf(a: Arch, fa: Frames.FrameAllocator): Teardown
  {
    Teardown((mem: Mem, phys: Word) => !AnyEntryPresent(a, mem, phys),
             (phys: Word) => fa.Freed(Usize(phys), 1))
  }

  /**
   * `unmap_phys_inner`: at the last level zero the entry and return its
   * address and flags if it was present; above, recurse into the next table
   * and, with `parents`, unlink and free it once none of its entries is
   * present.
   */
  ghost function UnmapFrom(s: Steps, d: Teardown, a: Arch, mem: Mem, free: set<nat>,
                           t: PageTable, virt: Word, parents: bool): UnmapResult
    requires a.WellFormed()
    decreases t.level
  {
    match s.index(t, virt)
    case None => UnmapResult(None, mem, free)
    case Some(i) =>
      if t.level == 0 then
        match Entry(a, mem, t, i)
        case None => UnmapResult(None, mem, free)
        case Some(e) => UnmapResult(s.decode(e.data), SetEntry(a, mem, t, i, PageEntry(0)), free)
      else
        match s.next(t, i, Read(mem, t.phys, i))
        case None => UnmapResult(None, mem, free)
        case Some((base, phys)) =>
          var inner := UnmapFrom(s, d, a, mem, free, PageTable(base, phys, t.level - 1), virt, parents);
          if inner.result.None? then inner
          else if parents && d.empty(inner.mem, phys) then
            UnmapResult(inner.result, SetEntry(a, inner.mem, t, i, PageEntry(0)), inner.free + d.release(phys))
          else inner
  }

  /** `unmap_phys`: an unaligned `virt` is rejected; otherwise `unmap_phys_inner` from the root. */
  ghost function UnmapPhys(a: Arch, fa: Frames.FrameAllocator, mem: Mem, free: set<nat>, root: Word,
                           virt: Word, parents: bool): UnmapResult
    requires a.WellFormed()
  {
    if !Aligned(a, virt) then UnmapResult(None, mem, free)
    else UnmapFrom(StepsOf(a), TeardownOf(a, fa), a, mem, free, Root(a, root), virt, parents)
  }

  /** `unmap`: `unmap_phys`, then the frame that was mapped is freed. */
  ghost function Unmap(a: Arch, fa: Frames.FrameAllocator, mem: Mem, free: set<nat>, root: Word,
                       virt: Word, parents: bool): UnmapResult
    requires a.WellFormed()
  {
    var r := UnmapPhys(a, fa, mem, free, root, virt, parents);
    match r.result
    case None => r
    case Some((paddr, _)) => UnmapResult(r.result, r.mem, r.free + fa.Freed(Usize(paddr), 1))
  }
}
