/**
 * How `index_of` in kernel/src/mm/page.rs routes an address down the
 * x86_64 four-level table hierarchy: the code as written, which ignores a
 * table's base, and the corrected version the page walks use.
 */
module Routing {
  import opened Wrappers
  import opened Paging
  import opened Walks
  import opened WalkProofs
  import opened MapProofs

  /** Routing on x86_64: a table at level 2 whose range starts at 512 GiB. */
  lemma IndexOfAsWrittenRejectsUpperTables()
    ensures X86_64.WellFormed()
    ensures IndexOfAsWritten(X86_64, PageTable(0x80_0000_0000, 0x2000, 2), 0x80_0000_0000) == None
  {
    X86WellFormed();
  }

  /** The corrected `index_of` routes the same address to the table's first entry. */
  lemma IndexOfAcceptsUpperTables()
    ensures X86_64.WellFormed()
    ensures IndexOf(X86_64, PageTable(0x80_0000_0000, 0x2000, 2), 0x80_0000_0000) == Some(0)
  {
    X86WellFormed();
  }

  /**
   * The corrected `index_of` at the edges of a level-1 table whose range is
   * [1 GiB, 2 GiB): the page below the base and the first address past the
   * end give None, the first and last pages of the range give slots 0 and
   * 511, whose entries start at or below them and reach past them, and
   * bits 48-63 are masked off first.
   */
  lemma IndexOfTableEdges()
    ensures X86_64.WellFormed()
    ensures IndexOf(X86_64, PageTable(0x4000_0000, 0x3000, 1), 0x3fff_f000) == None
    ensures IndexOf(X86_64, PageTable(0x4000_0000, 0x3000, 1), 0x4000_0000) == Some(0)
    ensures EntryBase(X86_64, PageTable(0x4000_0000, 0x3000, 1), 0) == Some(0x4000_0000)
    ensures IndexOf(X86_64, PageTable(0x4000_0000, 0x3000, 1), 0x4020_0000) == Some(1)
    ensures IndexOf(X86_64, PageTable(0x4000_0000, 0x3000, 1), 0x7fff_ffff) == Some(511)
    ensures EntryBase(X86_64, PageTable(0x4000_0000, 0x3000, 1), 511) == Some(0x7fe0_0000)
    ensures IndexOf(X86_64, PageTable(0x4000_0000, 0x3000, 1), 0x8000_0000) == None
    ensures IndexOf(X86_64, PageTable(0x4000_0000, 0x3000, 1), 0xffff_0000_4000_0000) == Some(0)
  {
    X86WellFormed();
  }

  /**
   * The corrected `index_of` routes the highest user page, 0x7fff_ffff_f000,
   * down all four x86_64 levels: each table of the walk starts where its
   * parent's entry starts (`EntryBase`) and accepts the address.
   */
  lemma IndexOfWalksTopUserPage()
    ensures X86_64.WellFormed()
    ensures IndexOf(X86_64, PageTable(0, 0x1000, 3), 0x7fff_ffff_f000) == Some(255)
    ensures EntryBase(X86_64, PageTable(0, 0x1000, 3), 255) == Some(0x7f80_0000_0000)
    ensures IndexOf(X86_64, PageTable(0x7f80_0000_0000, 0x2000, 2), 0x7fff_ffff_f000) == Some(511)
    ensures EntryBase(X86_64, PageTable(0x7f80_0000_0000, 0x2000, 2), 511) == Some(0x7fff_c000_0000)
    ensures IndexOf(X86_64, PageTable(0x7fff_c000_0000, 0x3000, 1), 0x7fff_ffff_f000) == Some(511)
    ensures EntryBase(X86_64, PageTable(0x7fff_c000_0000, 0x3000, 1), 511) == Some(0x7fff_ffe0_0000)
    ensures IndexOf(X86_64, PageTable(0x7fff_ffe0_0000, 0x4000, 0), 0x7fff_ffff_f000) == Some(511)
  {
    X86WellFormed();
  }

  /** The code as written loses the same address one level below the top. */
  lemma IndexOfAsWrittenLosesTopUserPage()
    ensures X86_64.WellFormed()
    ensures IndexOfAsWritten(X86_64, PageTable(0, 0x1000, 3), 0x7fff_ffff_f000) == Some(255)
    ensures IndexOfAsWritten(X86_64, PageTable(0x7f80_0000_0000, 0x2000, 2), 0x7fff_ffff_f000) == None
  {
    X86WellFormed();
  }

  // ---------------------------------------------------------------------
  // The effect on the walks: virtual address 0x20_0000 (2 MiB)

  /**
   * Tables for 0x20_0000 that are already present: the root at 0x1000 links
   * slot 0 to 0x2000, that table links slot 0 to 0x3000, and that one links
   * slot 1 (the entry for [2 MiB, 4 MiB)) to the last-level table at 0x4000.
   */
  function PathTo2M(): Mem
  {
    map[(0x1000, 0) := 0x2003, (0x2000, 0) := 0x3003, (0x3000, 1) := 0x4003]
  }

  /** The walk for 0x20_0000 down to the last-level table, under either version of `index_of`. */
  lemma StepsTo2M(s: Steps)
    requires s == StepsOf(X86_64) || s == StepsAsWrittenOf(X86_64)
    ensures s.index(PageTable(0, 0x1000, 3), 0x20_0000) == Some(0)
    ensures s.next(PageTable(0, 0x1000, 3), 0, 0x2003) == Some((0, 0x2000))
    ensures s.index(PageTable(0, 0x2000, 2), 0x20_0000) == Some(0)
    ensures s.next(PageTable(0, 0x2000, 2), 0, 0x3003) == Some((0, 0x3000))
    ensures s.index(PageTable(0, 0x3000, 1), 0x20_0000) == Some(1)
    ensures s.next(PageTable(0, 0x3000, 1), 1, 0x4003) == Some((0x20_0000, 0x4000))
  {
    X86WellFormed();
    IndexesTo2M();
    assert ValidTable(X86_64, PageTable(0, 0x1000, 3));
    assert ValidTable(X86_64, PageTable(0, 0x2000, 2));
    assert ValidTable(X86_64, PageTable(0, 0x3000, 1));
  }

  /** Both versions of `index_of` agree on the three tables above the last level, whose ranges start at 0. */
  lemma IndexesTo2M()
    ensures IndexOf(X86_64, PageTable(0, 0x1000, 3), 0x20_0000) == Some(0)
    ensures IndexOfAsWritten(X86_64, PageTable(0, 0x1000, 3), 0x20_0000) == Some(0)
    ensures IndexOf(X86_64, PageTable(0, 0x2000, 2), 0x20_0000) == Some(0)
    ensures IndexOfAsWritten(X86_64, PageTable(0, 0x2000, 2), 0x20_0000) == Some(0)
    ensures IndexOf(X86_64, PageTable(0, 0x3000, 1), 0x20_0000) == Some(1)
    ensures IndexOfAsWritten(X86_64, PageTable(0, 0x3000, 1), 0x20_0000) == Some(1)
  {
    X86WellFormed();
  }

  /** In the last-level table the corrected `index_of` picks slot 0; as written it rejects the address. */
  lemma LeafIndexAt2M()
    ensures StepsOf(X86_64).index(PageTable(0x20_0000, 0x4000, 0), 0x20_0000) == Some(0)
    ensures StepsAsWrittenOf(X86_64).index(PageTable(0x20_0000, 0x4000, 0), 0x20_0000) == None
  {
    X86WellFormed();
  }

  /** Either walk reaches the last-level table at 0x4000, whose range starts at 2 MiB. */
  lemma WalkTo2M(s: Steps)
    requires s == StepsOf(X86_64) || s == StepsAsWrittenOf(X86_64)
    ensures Walk(s, PathTo2M(), PageTable(0, 0x1000, 3), 0x20_0000) == Walk(s, PathTo2M(), PageTable(0x20_0000, 0x4000, 0), 0x20_0000)
  {
    var m, v := PathTo2M(), 0x20_0000;
    StepsTo2M(s);
    WalkDescend(s, m, PageTable(0, 0x1000, 3), v, 0, (0, 0x2000));
    WalkDescend(s, m, PageTable(0, 0x2000, 2), v, 0, (0, 0x3000));
    WalkDescend(s, m, PageTable(0, 0x3000, 1), v, 1, (0x20_0000, 0x4000));
  }

  /**
   * As written, `translate` finds nothing at 0x20_0000 even once a page is
   * stored in slot 0 of the last-level table; with the corrected `index_of`
   * it finds that page.
   */
  lemma TranslateAsWrittenMisses2M()
    ensures var m := Write(PathTo2M(), 0x4000, 0, 0x7003);
      Lookup(StepsAsWrittenOf(X86_64), X86_64, m, Root(X86_64, 0x1000), 0x20_0000) == None
      && Lookup(StepsOf(X86_64), X86_64, m, Root(X86_64, 0x1000), 0x20_0000) == Some((0x7000, PageFlags(3)))
  {
    X86WellFormed();
    var m, v := Write(PathTo2M(), 0x4000, 0, 0x7003), 0x20_0000;
    assert Root(X86_64, 0x1000) == PageTable(0, 0x1000, 3);
    LeafIndexAt2M();
    StepsTo2M(StepsOf(X86_64));
    StepsTo2M(StepsAsWrittenOf(X86_64));
    WalkDescend(StepsOf(X86_64), m, PageTable(0, 0x1000, 3), v, 0, (0, 0x2000));
    WalkDescend(StepsOf(X86_64), m, PageTable(0, 0x2000, 2), v, 0, (0, 0x3000));
    WalkDescend(StepsOf(X86_64), m, PageTable(0, 0x3000, 1), v, 1, (0x20_0000, 0x4000));
    WalkDescend(StepsAsWrittenOf(X86_64), m, PageTable(0, 0x1000, 3), v, 0, (0, 0x2000));
    WalkDescend(StepsAsWrittenOf(X86_64), m, PageTable(0, 0x2000, 2), v, 0, (0, 0x3000));
    WalkDescend(StepsAsWrittenOf(X86_64), m, PageTable(0, 0x3000, 1), v, 1, (0x20_0000, 0x4000));
    assert Decode(X86_64, 0x7003) == Some((0x7000, PageFlags(3)));
  }

  /** Either `map_phys` loop for 0x20_0000 descends through the present tables to the one at 0x4000. */
  lemma MapTo2M(s: Steps, g: NewTables, free: set<nat>, entry: Word, clear: bool)
    requires s == StepsOf(X86_64) || s == StepsAsWrittenOf(X86_64)
    ensures X86_64.WellFormed()
    ensures MapFrom(s, g, X86_64, PathTo2M(), free, PageTable(0, 0x1000, 3), 0x20_0000, entry, clear)
         == MapFrom(s, g, X86_64, PathTo2M(), free, PageTable(0x20_0000, 0x4000, 0), 0x20_0000, entry, clear)
  {
    X86WellFormed();
    var m, v := PathTo2M(), 0x20_0000;
    StepsTo2M(s);
    MapDescend(s, g, X86_64, m, free, PageTable(0, 0x1000, 3), v, entry, clear, 0, (0, 0x2000));
    MapDescend(s, g, X86_64, m, free, PageTable(0, 0x2000, 2), v, entry, clear, 0, (0, 0x3000));
    MapDescend(s, g, X86_64, m, free, PageTable(0, 0x3000, 1), v, entry, clear, 1, (0x20_0000, 0x4000));
  }

  /**
   * As written, the `map_phys` loop for 0x20_0000 through tables that are
   * all present ends with None and changes nothing, whatever the entry, the
   * free frames and the allocator.
   */
  lemma MapAsWrittenMisses2M(g: NewTables, free: set<nat>, entry: Word, clear: bool)
    ensures MapFrom(StepsAsWrittenOf(X86_64), g, X86_64, PathTo2M(), free, PageTable(0, 0x1000, 3), 0x20_0000, entry, clear)
         == MapResult(NotMapped, PathTo2M(), free)
  {
    MapTo2M(StepsAsWrittenOf(X86_64), g, free, entry, clear);
    LeafIndexAt2M();
  }

  /** With the corrected `index_of`, the same loop writes the entry into slot 0 of the table at 0x4000. */
  lemma MapCorrectedHits2M(g: NewTables, free: set<nat>, entry: Word, clear: bool)
    ensures MapFrom(StepsOf(X86_64), g, X86_64, PathTo2M(), free, PageTable(0, 0x1000, 3), 0x20_0000, entry, clear)
         == MapResult(Mapped(0x20_0000), Write(PathTo2M(), 0x4000, 0, entry), free)
  {
    MapTo2M(StepsOf(X86_64), g, free, entry, clear);
    LeafIndexAt2M();
    MapLeaf(StepsOf(X86_64), g, X86_64, PathTo2M(), free, PageTable(0x20_0000, 0x4000, 0), 0x20_0000, entry, clear);
  }
}
