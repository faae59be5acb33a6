/**
 * What the walks of `PageMapper` do: the conditions `StepsOf(a)` meets, the
 * walk lemmas that hold for any steps meeting them, and the properties of
 * translate, remap, map_phys and unmap that follow.
 */
module WalkProofs {
  import opened Wrappers
  import opened Paging
  import opened Walks
  import Frames

  // ---------------------------------------------------------------------
  // The steps of an architecture

  lemma StepsOfIndex(a: Arch, t: PageTable, virt: Word)
    requires ValidTable(a, t)
    ensures StepsOf(a).index(t, virt) == IndexOf(a, t, virt)
  {
  }

  /** `StepsOf(a).next` on the word in memory is `next_level_table` on that memory. */
  lemma StepsOfNext(a: Arch, mem: Mem, t: PageTable, i: nat)
    requires ValidTable(a, t)
    ensures StepsOf(a).next(t, i, Read(mem, t.phys, i)) ==
      match NextLevelTable(a, mem, t, i)
      case None => None
      case Some(n) => Some((n.base, n.phys))
  {
    LinkIsNextLevelTable(a, mem, t, i);
  }

  lemma LinkIsNextLevelTable(a: Arch, mem: Mem, t: PageTable, i: nat)
    requires ValidTable(a, t)
    ensures Link(a, t, i, Read(mem, t.phys, i)) ==
      match NextLevelTable(a, mem, t, i)
      case None => None
      case Some(n) => Some((n.base, n.phys))
  {
  }

  /** The table `next_level_table` returns is one of the architecture's. */
  lemma NextLevelTableValid(a: Arch, mem: Mem, t: PageTable, i: nat)
    requires ValidTable(a, t) && NextLevelTable(a, mem, t, i).Some?
    ensures ValidTable(a, NextLevelTable(a, mem, t, i).value)
  {
    ShiftsFitBelow(a, t.level);
  }

  lemma ShiftsFitBelow(a: Arch, level: nat)
    requires level >= 1 && a.ShiftsFit(level)
    ensures a.ShiftsFit(level - 1)
  {
  }

  lemma StepsOfIndexInTable(a: Arch)
    ensures IndexInTable(StepsOf(a), a)
  {
  }

  lemma StepsOfZeroLeadsNowhere(a: Arch)
    ensures ZeroLeadsNowhere(StepsOf(a))
  {
    forall t, i
      ensures StepsOf(a).next(t, i, 0).None?
    {
    }
  }

  lemma StepsOfNextAtAddress(a: Arch)
    ensures NextAtAddress(StepsOf(a), a)
  {
    forall t, i, w | StepsOf(a).next(t, i, w).Some?
      ensures StepsOf(a).next(t, i, w).value.1 == w & a.pageAddressMask
    {
      LinkAtAddress(a, t, i, w);
    }
  }

  lemma LinkAtAddress(a: Arch, t: PageTable, i: nat, w: Word)
    requires ValidTable(a, t) && Link(a, t, i, w).Some?
    ensures Link(a, t, i, w).value.1 == w & a.pageAddressMask
  {
  }

  /** Words with the same present bit and the same address lead to the same table. */
  lemma StepsOfSameLink(a: Arch, w1: Word, w2: Word)
    requires PageEntry(w1).Present(a) == PageEntry(w2).Present(a)
    requires w1 & a.pageAddressMask == w2 & a.pageAddressMask
    ensures SameLink(StepsOf(a), w1, w2)
  {
    forall t, i
      ensures StepsOf(a).next(t, i, w1) == StepsOf(a).next(t, i, w2)
    {
      if ValidTable(a, t) {
        LinkSame(a, t, i, w1, w2);
      }
    }
  }

  lemma LinkSame(a: Arch, t: PageTable, i: nat, w1: Word, w2: Word)
    requires ValidTable(a, t)
    requires PageEntry(w1).Present(a) == PageEntry(w2).Present(a)
    requires w1 & a.pageAddressMask == w2 & a.pageAddressMask
    ensures Link(a, t, i, w1) == Link(a, t, i, w2)
  {
  }

  // ---------------------------------------------------------------------
  // Walks

  lemma NextAfterWrite(s: Steps, mem: Mem, p: Word, j: nat, w: Word, t: PageTable, i: nat)
    requires SameLink(s, Read(mem, p, j), w)
    ensures s.next(t, i, Read(Write(mem, p, j, w), t.phys, i)) == s.next(t, i, Read(mem, t.phys, i))
  {
  }

  /** Rewriting one entry with a word that leads to the same place leaves every walk as it was. */
  lemma {:induction false} WalkAfterWrite(s: Steps, mem: Mem, p: Word, j: nat, w: Word, t: PageTable, virt: Word)
    requires SameLink(s, Read(mem, p, j), w)
    ensures Walk(s, Write(mem, p, j, w), t, virt) == Walk(s, mem, t, virt)
    decreases t.level
  {
    if s.index(t, virt).Some? && t.level > 0 {
      var i := s.index(t, virt).value;
      NextAfterWrite(s, mem, p, j, w, t, i);
      if s.next(t, i, Read(mem, t.phys, i)).Some? {
        var n := s.next(t, i, Read(mem, t.phys, i)).value;
        WalkAfterWrite(s, mem, p, j, w, PageTable(n.0, n.1, t.level - 1), virt);
      }
    }
  }

  /**
   * If every entry of `m2` is that of `m1` or zero, a walk that completes in
   * `m2` is the walk of `m1`.
   */
  lemma {:induction false} WalkThroughZeros(s: Steps, m1: Mem, m2: Mem, t: PageTable, virt: Word)
    requires ZeroLeadsNowhere(s)
    requires forall p, j :: Read(m2, p, j) == Read(m1, p, j) || Read(m2, p, j) == 0
    requires Walk(s, m2, t, virt).Some?
    ensures Walk(s, m2, t, virt) == Walk(s, m1, t, virt)
    decreases t.level
  {
    var i := s.index(t, virt).value;
    if t.level > 0 {
      assert Read(m2, t.phys, i) == Read(m1, t.phys, i);
      var n := s.next(t, i, Read(m2, t.phys, i)).value;
      WalkThroughZeros(s, m1, m2, PageTable(n.0, n.1, t.level - 1), virt);
    }
  }
}

module MapProofs {
  import opened Wrappers
  import opened Paging
  import opened Walks
  import opened WalkProofs
  import Frames

  // ---------------------------------------------------------------------
  // New tables

  /**
   * New tables come out of `pool(free)`: the frame allocated is in the pool
   * and leaves it, the frames left free are among those that were, and the
   * entry linking the frame leads to it.
   */
  ghost predicate PoolSound(s: Steps, g: NewTables, pool: set<nat> -> set<Word>)
  {
    forall free :: g.allocate(free).Some? ==>
      var frame := g.allocate(free).value.0;
      var rest := g.allocate(free).value.1;
      frame in pool(free) && frame !in pool(rest) && pool(rest) <= pool(free) && rest <= free
      && forall t, i :: s.next(t, i, g.link(frame)).Some? ==> s.next(t, i, g.link(frame)).value.1 == frame
  }

  /** The free frames' addresses, as a pool. */
  function FreePool(fa: Frames.FrameAllocator): set<nat> -> set<Word>
  {
    (free: set<nat>) => if Fits(fa) then FreeWords(fa, free) else {}
  }

  /** The frame `allocate_one` returns is free, its address is not that of a frame left free. */
  lemma AllocFresh(a: Arch, fa: Frames.FrameAllocator, free: set<nat>)
    requires Fits(fa) && FramesFit(a, fa) && AllocOne(fa, free).Some?
    ensures AllocOne(fa, free).value.0 in FreeWords(fa, free)
    ensures AllocOne(fa, free).value.0 !in FreeWords(fa, AllocOne(fa, free).value.1)
    ensures FreeWords(fa, AllocOne(fa, free).value.1) <= FreeWords(fa, free)
    ensures InAddressMask(a, AllocOne(fa, free).value.0)
    ensures AllocOne(fa, free).value.1 < free
  {
    var f := fa.Allocation(free, 1).value;
    var rest := free - {f};
    assert FrameWord(fa, f) in FreeWords(fa, free);
    forall g | g in rest && g < fa.frameCount
      ensures FrameWord(fa, g) != FrameWord(fa, f)
    {
    }
  }

  /** The entry linking a table at an address inside the address mask leads to that address. */
  lemma LinkLeads(a: Arch, fa: Frames.FrameAllocator, frame: Word, user: bool)
    requires MasksDisjoint(a) && InFlagsMask(a, TableFlags(a, user)) && InAddressMask(a, frame)
    ensures forall t, i :: StepsOf(a).next(t, i, NewTablesOf(a, fa, user).link(frame)).Some? ==>
      StepsOf(a).next(t, i, NewTablesOf(a, fa, user).link(frame)).value.1 == frame
  {
    StepsOfNextAtAddress(a);
    EntryMaskedAddress(a, frame, TableFlags(a, user));
  }

  /** An allocator whose frames fit supplies new tables from its free frames. */
  lemma NewTablesOfSound(a: Arch, fa: Frames.FrameAllocator, user: bool)
    requires Fits(fa) && FramesFit(a, fa) && MasksDisjoint(a) && InFlagsMask(a, TableFlags(a, user))
    ensures PoolSound(StepsOf(a), NewTablesOf(a, fa, user), FreePool(fa))
  {
    var g := NewTablesOf(a, fa, user);
    forall free | g.allocate(free).Some?
      ensures var frame := g.allocate(free).value.0;
        var rest := g.allocate(free).value.1;
        frame in FreePool(fa)(free) && frame !in FreePool(fa)(rest) && FreePool(fa)(rest) <= FreePool(fa)(free)
        && rest <= free
        && forall t, i :: StepsOf(a).next(t, i, g.link(frame)).Some? ==> StepsOf(a).next(t, i, g.link(frame)).value.1 == frame
    {
      AllocFresh(a, fa, free);
      LinkLeads(a, fa, g.allocate(free).value.0, user);
    }
  }

  // ---------------------------------------------------------------------
  // One step of map_phys

  /** One step down an existing table: the walk goes on from the next table. */
  lemma WalkDescend(s: Steps, mem: Mem, t: PageTable, virt: Word, i: nat, n: (Word, Word))
    requires t.level > 0 && s.index(t, virt) == Some(i) && s.next(t, i, Read(mem, t.phys, i)) == Some(n)
    ensures Walk(s, mem, t, virt) == Walk(s, mem, PageTable(n.0, n.1, t.level - 1), virt)
  {
  }

  /** One step down an existing table: the `map_phys` loop goes on from the next table. */
  lemma MapDescend(s: Steps, g: NewTables, a: Arch, mem: Mem, free: set<nat>,
                   t: PageTable, virt: Word, entry: Word, clear: bool, i: nat, n: (Word, Word))
    requires a.WellFormed()
    requires t.level > 0 && s.index(t, virt) == Some(i) && s.next(t, i, Read(mem, t.phys, i)) == Some(n)
    ensures MapFrom(s, g, a, mem, free, t, virt, entry, clear)
         == MapFrom(s, g, a, mem, free, PageTable(n.0, n.1, t.level - 1), virt, entry, clear)
  {
  }

  /** One step where a table is missing: the loop allocates one, links it, and goes on from it. */
  lemma MapGrow(s: Steps, g: NewTables, a: Arch, mem: Mem, free: set<nat>,
                t: PageTable, virt: Word, entry: Word, clear: bool, i: nat, n: (Word, Word))
    requires a.WellFormed()
    requires t.level > 0 && s.index(t, virt) == Some(i) && s.next(t, i, Read(mem, t.phys, i)).None?
    requires g.allocate(free).Some?
    requires var frame := g.allocate(free).value.0;
      s.next(t, i, Read(LinkTable(a, mem, t, i, frame, g.link(frame), clear), t.phys, i)) == Some(n)
    ensures var frame := g.allocate(free).value.0;
      MapFrom(s, g, a, mem, free, t, virt, entry, clear)
      == MapFrom(s, g, a, LinkTable(a, mem, t, i, frame, g.link(frame), clear),
                 g.allocate(free).value.1, PageTable(n.0, n.1, t.level - 1), virt, entry, clear)
  {
  }

  /** A successful last step writes `entry` into a zero slot of `t`. */
  lemma MapLeaf(s: Steps, g: NewTables, a: Arch, mem: Mem, free: set<nat>,
                t: PageTable, virt: Word, entry: Word, clear: bool)
    requires a.WellFormed() && t.level == 0 && s.index(t, virt).Some?
    ensures var i := s.index(t, virt).value;
      var r := MapFrom(s, g, a, mem, free, t, virt, entry, clear);
      r.free == free
      && (i >= a.entryNum ==> r.outcome == NotMapped && r.mem == mem)
      && (i < a.entryNum && Read(mem, t.phys, i) != 0 ==> r.outcome == AlreadyMapped && r.mem == mem)
      && (i < a.entryNum && Read(mem, t.phys, i) == 0 ==> r.outcome == Mapped(virt) && r.mem == Write(mem, t.phys, i, entry))
  {
  }

  /** The table `map_phys` links in is zeroed, and only it and entry `i` of `t` change. */
  lemma LinkTableZeroed(a: Arch, mem: Mem, t: PageTable, i: nat, frame: Word, link: Word)
    requires a.WellFormed() && i < a.entryNum && frame != t.phys
    ensures Read(LinkTable(a, mem, t, i, frame, link, true), t.phys, i) == link
    ensures forall j: nat :: j < a.entryNum ==> Read(LinkTable(a, mem, t, i, frame, link, true), frame, j) == 0
    ensures forall p, j :: p != frame && p != t.phys ==> Read(LinkTable(a, mem, t, i, frame, link, true), p, j) == Read(mem, p, j)
  {
  }

  // ---------------------------------------------------------------------
  // map_phys

  /**
   * Where every table on the walk exists, `map_phys` allocates nothing: it
   * panics if the last-level slot is nonzero and otherwise writes `entry`
   * there and nowhere else.
   */
  lemma {:induction false} MapFromExistingPath(s: Steps, g: NewTables, a: Arch, mem: Mem, free: set<nat>,
                                               t: PageTable, virt: Word, entry: Word, clear: bool)
    requires a.WellFormed() && Walk(s, mem, t, virt).Some?
    ensures var (leaf, i) := Walk(s, mem, t, virt).value;
      var r := MapFrom(s, g, a, mem, free, t, virt, entry, clear);
      r.free == free
      && (i >= a.entryNum ==> r.outcome == NotMapped && r.mem == mem)
      && (i < a.entryNum && Read(mem, leaf.phys, i) != 0 ==> r.outcome == AlreadyMapped && r.mem == mem)
      && (i < a.entryNum && Read(mem, leaf.phys, i) == 0 ==>
            r.outcome == Mapped(virt) && r.mem == Write(mem, leaf.phys, i, entry))
    decreases t.level
  {
    if t.level == 0 {
      MapLeaf(s, g, a, mem, free, t, virt, entry, clear);
    } else {
      var i := s.index(t, virt).value;
      var n := s.next(t, i, Read(mem, t.phys, i)).value;
      MapDescend(s, g, a, mem, free, t, virt, entry, clear, i, n);
      WalkDescend(s, mem, t, virt, i, n);
      MapFromExistingPath(s, g, a, mem, free, PageTable(n.0, n.1, t.level - 1), virt, entry, clear);
    }
  }

  /** A table whose entries are all zero leads nowhere, so the walk through it is separate from `avoid` if it is. */
  lemma FreshTableSeparate(s: Steps, a: Arch, mem: Mem, t: PageTable, virt: Word, avoid: set<Word>)
    requires IndexInTable(s, a) && ZeroLeadsNowhere(s)
    requires t.phys !in avoid
    requires forall j: nat :: j < a.entryNum ==> Read(mem, t.phys, j) == 0
    ensures Separate(s, mem, t, virt, avoid)
  {
    if s.index(t, virt).Some? {
      var i := s.index(t, virt).value;
      assert Read(mem, t.phys, i) == 0;
    }
  }

  /**
   * What the mapping theorem assumes at table `t`: the steps and the new
   * tables are sound, and the tables on the walk from `t` are distinct, and
   * none of them is in `above` or in the pool.
   */
  ghost predicate CanLand(s: Steps, g: NewTables, pool: set<nat> -> set<Word>, a: Arch, mem: Mem,
                          free: set<nat>, t: PageTable, virt: Word, above: set<Word>)
  {
    a.WellFormed() && IndexInTable(s, a) && ZeroLeadsNowhere(s) && PoolSound(s, g, pool)
    && above !! pool(free) && Separate(s, mem, t, virt, above + pool(free))
  }

  /**
   * What the mapping theorem concludes: the walk for `virt` reaches a slot
   * that holds `entry`, the frames left free are among those that were,
   * and the tables in `above` are untouched.
   */
  ghost predicate Landed(s: Steps, mem: Mem, free: set<nat>, r: MapResult, t: PageTable, virt: Word,
                         entry: Word, above: set<Word>)
  {
    Reaches(s, r.mem, t, virt, entry) && r.free <= free
    && forall p, j :: p in above ==> Read(r.mem, p, j) == Read(mem, p, j)
  }

  /**
   * A `map_phys` loop that zeroes new tables and succeeds lands: see
   * `Landed`, under the assumptions of `CanLand`.
   */
  lemma {:induction false} MapFromLands(s: Steps, g: NewTables, pool: set<nat> -> set<Word>, a: Arch, mem: Mem,
                                        free: set<nat>, t: PageTable, virt: Word, entry: Word, above: set<Word>)
    requires CanLand(s, g, pool, a, mem, free, t, virt, above)
    requires MapFrom(s, g, a, mem, free, t, virt, entry, true).outcome.Mapped?
    ensures Landed(s, mem, free, MapFrom(s, g, a, mem, free, t, virt, entry, true), t, virt, entry, above)
    decreases t.level, 1
  {
    if t.level == 0 {
      MapLeaf(s, g, a, mem, free, t, virt, entry, true);
    } else {
      var i := s.index(t, virt).value;
      if s.next(t, i, Read(mem, t.phys, i)).Some? {
        LandsThroughTable(s, g, pool, a, mem, free, t, virt, entry, above, i);
      } else {
        LandsThroughNewTable(s, g, pool, a, mem, free, t, virt, entry, above, i);
      }
    }
  }

  /** Landing from the next table is landing from `t`, when `t`'s entry still leads there. */
  lemma LandedUp(s: Steps, mem: Mem, mem': Mem, free: set<nat>, free': set<nat>, r: MapResult,
                 t: PageTable, virt: Word, entry: Word, above: set<Word>, i: nat, n: (Word, Word))
    requires t.level > 0 && s.index(t, virt) == Some(i)
    requires Landed(s, mem', free', r, PageTable(n.0, n.1, t.level - 1), virt, entry, above + {t.phys})
    requires s.next(t, i, Read(mem', t.phys, i)) == Some(n)
    requires free' <= free
    requires forall p, j :: p in above ==> Read(mem', p, j) == Read(mem, p, j)
    ensures Landed(s, mem, free, r, t, virt, entry, above)
  {
    assert Read(r.mem, t.phys, i) == Read(mem', t.phys, i);
    WalkDescend(s, r.mem, t, virt, i, n);
  }

  lemma {:induction false} LandsThroughTable(s: Steps, g: NewTables, pool: set<nat> -> set<Word>, a: Arch, mem: Mem,
                                             free: set<nat>, t: PageTable, virt: Word, entry: Word, above: set<Word>, i: nat)
    requires CanLand(s, g, pool, a, mem, free, t, virt, above)
    requires MapFrom(s, g, a, mem, free, t, virt, entry, true).outcome.Mapped?
    requires t.level > 0 && s.index(t, virt) == Some(i) && s.next(t, i, Read(mem, t.phys, i)).Some?
    ensures Landed(s, mem, free, MapFrom(s, g, a, mem, free, t, virt, entry, true), t, virt, entry, above)
    decreases t.level, 0
  {
    var n := s.next(t, i, Read(mem, t.phys, i)).value;
    var next := PageTable(n.0, n.1, t.level - 1);
    MapDescend(s, g, a, mem, free, t, virt, entry, true, i, n);
    assert above + pool(free) + {t.phys} == (above + {t.phys}) + pool(free);
    MapFromLands(s, g, pool, a, mem, free, next, virt, entry, above + {t.phys});
    LandedUp(s, mem, mem, free, free, MapFrom(s, g, a, mem, free, next, virt, entry, true), t, virt, entry, above, i, n);
  }

  /** After a new table is linked in, the assumptions hold again from it. */
  lemma NewTableCanLand(s: Steps, g: NewTables, pool: set<nat> -> set<Word>, a: Arch, mem: Mem,
                        free: set<nat>, t: PageTable, virt: Word, above: set<Word>, i: nat)
    requires CanLand(s, g, pool, a, mem, free, t, virt, above)
    requires t.level > 0 && s.index(t, virt) == Some(i) && g.allocate(free).Some?
    requires s.next(t, i, g.link(g.allocate(free).value.0)).Some?
    ensures var frame := g.allocate(free).value.0;
      var n := s.next(t, i, g.link(frame)).value;
      n.1 == frame
      && CanLand(s, g, pool, a, LinkTable(a, mem, t, i, frame, g.link(frame), true), g.allocate(free).value.1,
                 PageTable(n.0, n.1, t.level - 1), virt, above + {t.phys})
  {
    var frame := g.allocate(free).value.0;
    var rest := g.allocate(free).value.1;
    var linked := LinkTable(a, mem, t, i, frame, g.link(frame), true);
    LinkTableZeroed(a, mem, t, i, frame, g.link(frame));
    var n := s.next(t, i, g.link(frame)).value;
    FreshTableSeparate(s, a, linked, PageTable(n.0, n.1, t.level - 1), virt, (above + {t.phys}) + pool(rest));
  }

  lemma {:induction false} LandsThroughNewTable(s: Steps, g: NewTables, pool: set<nat> -> set<Word>, a: Arch, mem: Mem,
                                                free: set<nat>, t: PageTable, virt: Word, entry: Word, above: set<Word>, i: nat)
    requires CanLand(s, g, pool, a, mem, free, t, virt, above)
    requires MapFrom(s, g, a, mem, free, t, virt, entry, true).outcome.Mapped?
    requires t.level > 0 && s.index(t, virt) == Some(i) && s.next(t, i, Read(mem, t.phys, i)).None?
    ensures Landed(s, mem, free, MapFrom(s, g, a, mem, free, t, virt, entry, true), t, virt, entry, above)
    decreases t.level, 0
  {
    var frame := g.allocate(free).value.0;
    var rest := g.allocate(free).value.1;
    var linked := LinkTable(a, mem, t, i, frame, g.link(frame), true);
    LinkTableZeroed(a, mem, t, i, frame, g.link(frame));
    var n := s.next(t, i, g.link(frame)).value;
    var next := PageTable(n.0, n.1, t.level - 1);
    MapGrow(s, g, a, mem, free, t, virt, entry, true, i, n);
    NewTableCanLand(s, g, pool, a, mem, free, t, virt, above, i);
    MapFromLands(s, g, pool, a, linked, rest, next, virt, entry, above + {t.phys});
    LandedUp(s, mem, linked, free, rest, MapFrom(s, g, a, linked, rest, next, virt, entry, true), t, virt, entry, above, i, n);
  }
}

module UnmapProofs {
  import opened Wrappers
  import opened Paging
  import opened Walks
  import opened WalkProofs
  import opened MapProofs
  import Frames

  /** Every entry of `m2` is that of `m1` or zero. */
  ghost predicate ZeroedOrKept(m1: Mem, m2: Mem)
  {
    forall p, j :: Read(m2, p, j) == Read(m1, p, j) || Read(m2, p, j) == 0
  }

  /** One step down an existing table: `unmap_phys_inner` recurses, then may unlink the next table. */
  lemma UnmapDescend(s: Steps, d: Teardown, a: Arch, mem: Mem, free: set<nat>,
                     t: PageTable, virt: Word, parents: bool, i: nat, n: (Word, Word))
    requires a.WellFormed()
    requires t.level > 0 && s.index(t, virt) == Some(i) && s.next(t, i, Read(mem, t.phys, i)) == Some(n)
    ensures var inner := UnmapFrom(s, d, a, mem, free, PageTable(n.0, n.1, t.level - 1), virt, parents);
      UnmapFrom(s, d, a, mem, free, t, virt, parents)
      == if inner.result.Some? && parents && d.empty(inner.mem, n.1) then
           UnmapResult(inner.result, SetEntry(a, inner.mem, t, i, PageEntry(0)), inner.free + d.release(n.1))
         else inner
  {
  }

  /** Where the walk stops short, `unmap_phys_inner` changes nothing. */
  lemma {:induction false} UnmapFromNoWalk(s: Steps, d: Teardown, a: Arch, mem: Mem, free: set<nat>,
                                           t: PageTable, virt: Word, parents: bool)
    requires a.WellFormed() && Walk(s, mem, t, virt).None?
    ensures UnmapFrom(s, d, a, mem, free, t, virt, parents) == UnmapResult(None, mem, free)
    decreases t.level
  {
    if s.index(t, virt).Some? && t.level > 0 && s.next(t, s.index(t, virt).value, Read(mem, t.phys, s.index(t, virt).value)).Some? {
      var i := s.index(t, virt).value;
      var n := s.next(t, i, Read(mem, t.phys, i)).value;
      UnmapDescend(s, d, a, mem, free, t, virt, parents, i, n);
      WalkDescend(s, mem, t, virt, i, n);
      UnmapFromNoWalk(s, d, a, mem, free, PageTable(n.0, n.1, t.level - 1), virt, parents);
    }
  }

  /** Whether `unmap_phys_inner` at `t` goes down one more table, to the one `n` names at index `i`. */
  ghost predicate Descends(s: Steps, mem: Mem, t: PageTable, virt: Word)
  {
    t.level > 0 && s.index(t, virt).Some?
    && s.next(t, s.index(t, virt).value, Read(mem, t.phys, s.index(t, virt).value)).Some?
  }

  /** The table one level down that `unmap_phys_inner` recurses into. */
  ghost function Child(s: Steps, mem: Mem, t: PageTable, virt: Word): PageTable
    requires Descends(s, mem, t, virt)
  {
    var n := s.next(t, s.index(t, virt).value, Read(mem, t.phys, s.index(t, virt).value)).value;
    PageTable(n.0, n.1, t.level - 1)
  }

  /** `unmap_phys_inner` returns what a lookup of `virt` finds before the entry is cleared. */
  lemma {:induction false} UnmapFromResult(s: Steps, d: Teardown, a: Arch, mem: Mem, free: set<nat>,
                                           t: PageTable, virt: Word, parents: bool)
    requires a.WellFormed()
    ensures UnmapFrom(s, d, a, mem, free, t, virt, parents).result == Lookup(s, a, mem, t, virt)
    decreases t.level
  {
    if Descends(s, mem, t, virt) {
      var c := Child(s, mem, t, virt);
      UnmapFromResult(s, d, a, mem, free, c, virt, parents);
      ResultUp(s, d, a, mem, free, t, virt, parents);
    } else {
      ResultStop(s, d, a, mem, free, t, virt, parents);
    }
  }

  lemma ResultUp(s: Steps, d: Teardown, a: Arch, mem: Mem, free: set<nat>,
                 t: PageTable, virt: Word, parents: bool)
    requires a.WellFormed() && Descends(s, mem, t, virt)
    requires UnmapFrom(s, d, a, mem, free, Child(s, mem, t, virt), virt, parents).result
             == Lookup(s, a, mem, Child(s, mem, t, virt), virt)
    ensures UnmapFrom(s, d, a, mem, free, t, virt, parents).result == Lookup(s, a, mem, t, virt)
  {
    var i := s.index(t, virt).value;
    var n := s.next(t, i, Read(mem, t.phys, i)).value;
    UnmapDescend(s, d, a, mem, free, t, virt, parents, i, n);
    WalkDescend(s, mem, t, virt, i, n);
  }

  lemma ResultStop(s: Steps, d: Teardown, a: Arch, mem: Mem, free: set<nat>,
                   t: PageTable, virt: Word, parents: bool)
    requires a.WellFormed() && !Descends(s, mem, t, virt)
    ensures UnmapFrom(s, d, a, mem, free, t, virt, parents).result == Lookup(s, a, mem, t, virt)
  {
  }

  /**
   * What `unmap_phys_inner` from `t` leaves in `r`: only zeros written, only
   * frames freed, and the last-level slot of the walk zero.
   */
  ghost predicate Zeroed(s: Steps, a: Arch, mem: Mem, free: set<nat>, t: PageTable, virt: Word, r: UnmapResult)
  {
    ZeroedOrKept(mem, r.mem) && free <= r.free
    && (Walk(s, mem, t, virt).Some? && Walk(s, mem, t, virt).value.1 < a.entryNum ==>
          Read(r.mem, Walk(s, mem, t, virt).value.0.phys, Walk(s, mem, t, virt).value.1) == 0)
  }

  /**
   * `unmap_phys_inner` only ever writes zeros, only ever frees frames, and
   * leaves the last-level slot of the walk zero.
   */
  lemma {:induction false} UnmapFromZeroes(s: Steps, d: Teardown, a: Arch, mem: Mem, free: set<nat>,
                                           t: PageTable, virt: Word, parents: bool)
    requires a.WellFormed()
    ensures Zeroed(s, a, mem, free, t, virt, UnmapFrom(s, d, a, mem, free, t, virt, parents))
    decreases t.level
  {
    if Descends(s, mem, t, virt) {
      UnmapFromZeroes(s, d, a, mem, free, Child(s, mem, t, virt), virt, parents);
      ZeroesUp(s, d, a, mem, free, t, virt, parents);
    } else {
      ZeroesStop(s, d, a, mem, free, t, virt, parents);
    }
  }

  lemma ZeroesUp(s: Steps, d: Teardown, a: Arch, mem: Mem, free: set<nat>,
                 t: PageTable, virt: Word, parents: bool)
    requires a.WellFormed() && Descends(s, mem, t, virt)
    requires Zeroed(s, a, mem, free, Child(s, mem, t, virt), virt,
                    UnmapFrom(s, d, a, mem, free, Child(s, mem, t, virt), virt, parents))
    ensures Zeroed(s, a, mem, free, t, virt, UnmapFrom(s, d, a, mem, free, t, virt, parents))
  {
    var i := s.index(t, virt).value;
    var n := s.next(t, i, Read(mem, t.phys, i)).value;
    UnmapDescend(s, d, a, mem, free, t, virt, parents, i, n);
    WalkDescend(s, mem, t, virt, i, n);
    var inner := UnmapFrom(s, d, a, mem, free, Child(s, mem, t, virt), virt, parents);
    if inner.result.Some? && parents && d.empty(inner.mem, n.1) && Walk(s, mem, t, virt).Some? {
      var leaf := Walk(s, mem, t, virt).value;
      UnlinkKeepsZeroed(a, mem, inner.mem, t, i, leaf.0.phys, leaf.1);
    } else if inner.result.Some? && parents && d.empty(inner.mem, n.1) {
      UnlinkKeepsZeroed(a, mem, inner.mem, t, i, 0, 0);
    }
  }

  /** Writing a zero entry keeps `m2` zeroed-or-kept against `m1`, and keeps a zero slot zero. */
  lemma UnlinkKeepsZeroed(a: Arch, m1: Mem, m2: Mem, t: PageTable, i: nat, p: Word, j: nat)
    requires a.WellFormed() && ZeroedOrKept(m1, m2)
    ensures ZeroedOrKept(m1, SetEntry(a, m2, t, i, PageEntry(0)))
    ensures Read(m2, p, j) == 0 ==> Read(SetEntry(a, m2, t, i, PageEntry(0)), p, j) == 0
  {
  }

  lemma ZeroesStop(s: Steps, d: Teardown, a: Arch, mem: Mem, free: set<nat>,
                   t: PageTable, virt: Word, parents: bool)
    requires a.WellFormed() && !Descends(s, mem, t, virt)
    ensures Zeroed(s, a, mem, free, t, virt, UnmapFrom(s, d, a, mem, free, t, virt, parents))
  {
  }

  /** Clearing the last-level slot of the walk from `t`, if there is one. */
  ghost function ClearLeaf(s: Steps, a: Arch, mem: Mem, t: PageTable, virt: Word): Mem
    requires a.WellFormed()
  {
    if Walk(s, mem, t, virt).None? then mem
    else SetEntry(a, mem, Walk(s, mem, t, virt).value.0, Walk(s, mem, t, virt).value.1, PageEntry(0))
  }

  /** Without `unmap_parents`, `unmap_phys_inner` clears the last-level slot and nothing else, and frees nothing. */
  lemma {:induction false} UnmapFromWithoutParents(s: Steps, d: Teardown, a: Arch, mem: Mem, free: set<nat>,
                                                   t: PageTable, virt: Word)
    requires a.WellFormed()
    ensures var r := UnmapFrom(s, d, a, mem, free, t, virt, false);
      r.free == free && r.mem == ClearLeaf(s, a, mem, t, virt)
    decreases t.level
  {
    if Descends(s, mem, t, virt) {
      UnmapFromWithoutParents(s, d, a, mem, free, Child(s, mem, t, virt), virt);
      WithoutParentsUp(s, d, a, mem, free, t, virt);
    } else {
      WithoutParentsStop(s, d, a, mem, free, t, virt);
    }
  }

  lemma WithoutParentsUp(s: Steps, d: Teardown, a: Arch, mem: Mem, free: set<nat>, t: PageTable, virt: Word)
    requires a.WellFormed() && Descends(s, mem, t, virt)
    requires var r := UnmapFrom(s, d, a, mem, free, Child(s, mem, t, virt), virt, false);
      r.free == free && r.mem == ClearLeaf(s, a, mem, Child(s, mem, t, virt), virt)
    ensures var r := UnmapFrom(s, d, a, mem, free, t, virt, false);
      r.free == free && r.mem == ClearLeaf(s, a, mem, t, virt)
  {
    var i := s.index(t, virt).value;
    var n := s.next(t, i, Read(mem, t.phys, i)).value;
    UnmapDescend(s, d, a, mem, free, t, virt, false, i, n);
    WalkDescend(s, mem, t, virt, i, n);
  }

  lemma WithoutParentsStop(s: Steps, d: Teardown, a: Arch, mem: Mem, free: set<nat>, t: PageTable, virt: Word)
    requires a.WellFormed() && !Descends(s, mem, t, virt)
    ensures var r := UnmapFrom(s, d, a, mem, free, t, virt, false);
      r.free == free && r.mem == ClearLeaf(s, a, mem, t, virt)
  {
  }
}
