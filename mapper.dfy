/**
 * `PageMapper` of kernel/src/mm/page.rs as a class: the root table's
 * physical address, the frame allocator it owns, and the memory the tables
 * live in, which its methods update in place. Each method is proved against
 * the function of `Walks` that describes it, over the memory and free
 * frames it starts from; the properties of those functions are proved in
 * `Theorems`.
 */
module Mapper {
  import opened Wrappers
  import opened Paging
  import Walks
  import WalkProofs
  import MapProofs
  import Theorems
  import Frames

  /** The address `allocate_one` returns, as a word, is the one the model of `map_phys` links. */
  lemma AllocatedWord(a: Arch, fa: Frames.FrameAllocator, user: bool, free: set<nat>, x: Frames.usize)
    requires Walks.Fits(fa) && fa.Allocation(free, 1).Some? && x == fa.Allocation(free, 1).value * fa.pageSize
    ensures Walks.NewTablesOf(a, fa, user).allocate(free) == Some((Walks.WordOf(x), free - {fa.Allocation(free, 1).value}))
  {
  }

  /** Where the index of `virt` is out of range, the loop of `map_phys` ends without a mapping. */
  lemma NoIndexStep(a: Arch, fa: Frames.FrameAllocator, user: bool, mem: Mem, free: set<nat>,
                    t: PageTable, virt: Word, entry: Word)
    requires ValidTable(a, t) && IndexOf(a, t, virt).None?
    ensures Walks.MapFrom(Walks.StepsOf(a), Walks.NewTablesOf(a, fa, user), a, mem, free, t, virt, entry, true)
         == Walks.MapResult(Walks.NotMapped, mem, free)
  {
    WalkProofs.StepsOfIndex(a, t, virt);
  }

  /** At the last level, the loop of `map_phys` panics on a nonzero slot and otherwise writes `entry` there. */
  lemma LeafStep(a: Arch, fa: Frames.FrameAllocator, user: bool, mem: Mem, free: set<nat>,
                 t: PageTable, i: nat, virt: Word, entry: Word)
    requires ValidTable(a, t) && t.level == 0 && IndexOf(a, t, virt) == Some(i)
    ensures Walks.MapFrom(Walks.StepsOf(a), Walks.NewTablesOf(a, fa, user), a, mem, free, t, virt, entry, true)
         == if Read(mem, t.phys, i) != 0 then Walks.MapResult(Walks.AlreadyMapped, mem, free)
            else Walks.MapResult(Walks.Mapped(virt), Write(mem, t.phys, i, entry), free)
  {
    WalkProofs.StepsOfIndex(a, t, virt);
  }

  /** Through a present entry, the loop of `map_phys` goes on from the next table. */
  lemma DescendStep(a: Arch, fa: Frames.FrameAllocator, user: bool, mem: Mem, free: set<nat>,
                    t: PageTable, i: nat, virt: Word, entry: Word, n: PageTable)
    requires ValidTable(a, t) && t.level > 0 && IndexOf(a, t, virt) == Some(i)
    requires NextLevelTable(a, mem, t, i) == Some(n)
    ensures ValidTable(a, n) && n.level == t.level - 1
    ensures Walks.MapFrom(Walks.StepsOf(a), Walks.NewTablesOf(a, fa, user), a, mem, free, t, virt, entry, true)
         == Walks.MapFrom(Walks.StepsOf(a), Walks.NewTablesOf(a, fa, user), a, mem, free, n, virt, entry, true)
  {
    WalkProofs.StepsOfIndex(a, t, virt);
    WalkProofs.StepsOfNext(a, mem, t, i);
    WalkProofs.NextLevelTableValid(a, mem, t, i);
  }

  /** Where a table is missing and no frame is free, the loop of `map_phys` ends without a mapping. */
  lemma NoFrameStep(a: Arch, g: Walks.NewTables, mem: Mem, free: set<nat>,
                    t: PageTable, i: nat, virt: Word, entry: Word)
    requires ValidTable(a, t) && t.level > 0
    requires IndexOf(a, t, virt) == Some(i) && NextLevelTable(a, mem, t, i).None? && g.allocate(free).None?
    ensures Walks.MapFrom(Walks.StepsOf(a), g, a, mem, free, t, virt, entry, true)
         == Walks.MapResult(Walks.NotMapped, mem, free)
  {
    WalkProofs.StepsOfIndex(a, t, virt);
    WalkProofs.StepsOfNext(a, mem, t, i);
  }

  /**
   * Where a table is missing and `frame` is allocated for it, the loop of
   * `map_phys` goes on from the table linked there, over the memory with
   * that table zeroed and linked.
   */
  lemma GrowStep(a: Arch, g: Walks.NewTables, mem: Mem, free: set<nat>,
                 t: PageTable, i: nat, virt: Word, entry: Word, frame: Word, rest: set<nat>, n: PageTable)
    requires ValidTable(a, t) && t.level > 0
    requires IndexOf(a, t, virt) == Some(i) && NextLevelTable(a, mem, t, i).None?
    requires g.allocate(free) == Some((frame, rest))
    requires NextLevelTable(a, Walks.LinkTable(a, mem, t, i, frame, g.link(frame), true), t, i) == Some(n)
    ensures ValidTable(a, n) && n.level == t.level - 1
    ensures Walks.MapFrom(Walks.StepsOf(a), g, a, mem, free, t, virt, entry, true)
         == Walks.MapFrom(Walks.StepsOf(a), g, a, Walks.LinkTable(a, mem, t, i, frame, g.link(frame), true), rest, n, virt, entry, true)
  {
    var linked := Walks.LinkTable(a, mem, t, i, frame, g.link(frame), true);
    WalkProofs.StepsOfIndex(a, t, virt);
    WalkProofs.StepsOfNext(a, mem, t, i);
    WalkProofs.StepsOfNext(a, linked, t, i);
    WalkProofs.NextLevelTableValid(a, linked, t, i);
    MapProofs.MapGrow(Walks.StepsOf(a), g, a, mem, free, t, virt, entry, true, i, (n.base, n.phys));
  }

  /** Where the table just linked cannot be entered, the loop of `map_phys` ends without a mapping. */
  lemma GrowDeadStep(a: Arch, g: Walks.NewTables, mem: Mem, free: set<nat>,
                     t: PageTable, i: nat, virt: Word, entry: Word, frame: Word, rest: set<nat>)
    requires ValidTable(a, t) && t.level > 0
    requires IndexOf(a, t, virt) == Some(i) && NextLevelTable(a, mem, t, i).None?
    requires g.allocate(free) == Some((frame, rest))
    requires NextLevelTable(a, Walks.LinkTable(a, mem, t, i, frame, g.link(frame), true), t, i).None?
    ensures Walks.MapFrom(Walks.StepsOf(a), g, a, mem, free, t, virt, entry, true)
         == Walks.MapResult(Walks.NotMapped, Walks.LinkTable(a, mem, t, i, frame, g.link(frame), true), rest)
  {
    WalkProofs.StepsOfIndex(a, t, virt);
    WalkProofs.StepsOfNext(a, mem, t, i);
    WalkProofs.StepsOfNext(a, Walks.LinkTable(a, mem, t, i, frame, g.link(frame), true), t, i);
  }

  /** `set_entry`: the word is written only for an index inside the table. */
  method StoreEntry(a: Arch, memory: PhysMemory, t: PageTable, i: nat, e: PageEntry)
    requires a.WellFormed()
    modifies memory
    ensures memory.entries == SetEntry(a, old(memory.entries), t, i, e)
  {
    if i < a.entryNum {
      memory.WriteWord(t.phys, i, e.data);
    }
  }

  /** The presence test `unmap_phys_inner` makes over every entry of the table at `phys`. */
  method AnyPresent(a: Arch, memory: PhysMemory, phys: Word) returns (r: bool)
    ensures r == Walks.AnyEntryPresent(a, memory.entries, phys)
  {
    var k := 0;
    while k < a.entryNum
      invariant k <= a.entryNum
      invariant forall j: nat :: j < k ==> !PageEntry(Read(memory.entries, phys, j)).Present(a)
    {
      if PageEntry(Read(memory.entries, phys, k)).Present(a) {
        return true;
      }
      k := k + 1;
    }
    return false;
  }

  /** `unmap_phys_inner` at the last level zeroes the entry and returns what it held, if present. */
  lemma UnmapLeafStep(a: Arch, d: Walks.Teardown, mem: Mem, free: set<nat>,
                      t: PageTable, virt: Word, parents: bool, i: nat)
    requires ValidTable(a, t) && t.level == 0 && IndexOf(a, t, virt) == Some(i)
    ensures Walks.UnmapFrom(Walks.StepsOf(a), d, a, mem, free, t, virt, parents)
         == Walks.UnmapResult(Walks.Decode(a, Read(mem, t.phys, i)), SetEntry(a, mem, t, i, PageEntry(0)), free)
  {
    WalkProofs.StepsOfIndex(a, t, virt);
  }

  /** `unmap_phys_inner` above the last level, where entry `i` leads to table `n`: recurse, then maybe unlink `n`. */
  lemma UnmapUpStep(a: Arch, d: Walks.Teardown, mem: Mem, free: set<nat>,
                    t: PageTable, virt: Word, parents: bool, i: nat, n: PageTable)
    requires ValidTable(a, t) && t.level > 0 && IndexOf(a, t, virt) == Some(i)
    requires NextLevelTable(a, mem, t, i) == Some(n)
    ensures var inner := Walks.UnmapFrom(Walks.StepsOf(a), d, a, mem, free, n, virt, parents);
      Walks.UnmapFrom(Walks.StepsOf(a), d, a, mem, free, t, virt, parents)
      == if inner.result.Some? && parents && d.empty(inner.mem, n.phys) then
           Walks.UnmapResult(inner.result, SetEntry(a, inner.mem, t, i, PageEntry(0)), inner.free + d.release(n.phys))
         else inner
  {
    WalkProofs.StepsOfIndex(a, t, virt);
    WalkProofs.StepsOfNext(a, mem, t, i);
  }

  /** `unmap_phys_inner` stops where the walk finds no next table. */
  lemma UnmapStopStep(a: Arch, d: Walks.Teardown, mem: Mem, free: set<nat>,
                      t: PageTable, virt: Word, parents: bool, i: nat)
    requires ValidTable(a, t) && t.level > 0 && IndexOf(a, t, virt) == Some(i)
    requires NextLevelTable(a, mem, t, i).None?
    ensures Walks.UnmapFrom(Walks.StepsOf(a), d, a, mem, free, t, virt, parents)
         == Walks.UnmapResult(None, mem, free)
  {
    WalkProofs.StepsOfIndex(a, t, virt);
    WalkProofs.StepsOfNext(a, mem, t, i);
  }

  /**
   * `unmap_phys_inner`: zero the last-level entry for `virt` and return its
   * address and flags if it was present; on the way back up, with
   * `parents`, unlink and free each table left with no present entry.
   */
  method UnmapPhysInner(a: Arch, memory: PhysMemory, allocator: Frames.FrameAllocator,
                        table: PageTable, virt: Word, parents: bool) returns (r: Option<(Word, PageFlags)>)
    requires ValidTable(a, table) && allocator.Valid()
    modifies memory, allocator
    ensures allocator.Valid()
    ensures var u := Walks.UnmapFrom(Walks.StepsOf(a), Walks.TeardownOf(a, allocator), a,
                                     old(memory.entries), old(allocator.free), table, virt, parents);
      r == u.result && memory.entries == u.mem && allocator.free == u.free
    decreases table.level
  {
    ghost var d := Walks.TeardownOf(a, allocator);
    WalkProofs.StepsOfIndex(a, table, virt);
    var index := IndexOf(a, table, virt);
    if index.None? {
      return None;
    }
    var i := index.value;
    if table.level == 0 {
      UnmapLeafStep(a, d, memory.entries, allocator.free, table, virt, parents, i);
      var entry := Entry(a, memory.entries, table, i);
      StoreEntry(a, memory, table, i, PageEntry(0));
      return Walks.Decode(a, entry.value.data);
    }
    var subtable := NextLevelTable(a, memory.entries, table, i);
    if subtable.None? {
      UnmapStopStep(a, d, memory.entries, allocator.free, table, virt, parents, i);
      return None;
    }
    UnmapUpStep(a, d, memory.entries, allocator.free, table, virt, parents, i, subtable.value);
    WalkProofs.NextLevelTableValid(a, memory.entries, table, i);
    r := UnmapPhysInner(a, memory, allocator, subtable.value, virt, parents);
    if r.None? {
      return None;
    }
    if parents {
      var present := AnyPresent(a, memory, subtable.value.phys);
      if !present {
        StoreEntry(a, memory, table, i, PageEntry(0));
        allocator.FreeOne(Walks.Usize(subtable.value.phys));
      }
    }
  }

  class PageMapper {
    const arch: Arch
    /** The physical address of the root table. */
    const tablePaddr: Word
    const allocator: Frames.FrameAllocator
    /** The memory the tables live in, reached through `Arch::read` and `Arch::write`. */
    const memory: PhysMemory

    ghost predicate Valid()
      reads allocator
    {
      arch.WellFormed() && allocator.Valid()
    }

    /** `new`. */
    constructor (arch: Arch, tablePaddr: Word, allocator: Frames.FrameAllocator, memory: PhysMemory)
      ensures this.arch == arch && this.tablePaddr == tablePaddr
      ensures this.allocator == allocator && this.memory == memory
    {
      this.arch := arch;
      this.tablePaddr := tablePaddr;
      this.allocator := allocator;
      this.memory := memory;
    }

    /** `create`: the root table is a frame from the allocator; None if it has none. */
    static method Create(arch: Arch, allocator: Frames.FrameAllocator, memory: PhysMemory) returns (r: Option<PageMapper>)
      requires arch.WellFormed() && allocator.Valid()
      modifies allocator
      ensures allocator.Valid()
      ensures r.None? <==> Walks.AllocOne(allocator, old(allocator.free)).None?
      ensures r.None? ==> allocator.free == old(allocator.free)
      ensures r.Some? ==>
        fresh(r.value) && r.value.Valid()
        && r.value.arch == arch && r.value.allocator == allocator && r.value.memory == memory
        && (r.value.tablePaddr, allocator.free) == Walks.AllocOne(allocator, old(allocator.free)).value
    {
      var frame := allocator.AllocateOne();
      if frame.None? {
        return None;
      }
      var mapper := new PageMapper(arch, Walks.WordOf(frame.value), allocator, memory);
      return Some(mapper);
    }

    /** `table`: the root table, at the top level with base 0. */
    function Table(): (t: PageTable)
      requires arch.WellFormed()
      ensures ValidTable(arch, t) && t.phys == tablePaddr && t.level == arch.pageLevels - 1
    {
      Walks.Root(arch, tablePaddr)
    }

    /**
     * `visit`, returning the last-level table and index it would hand to its
     * closure: descend from the root while each table is present.
     */
    method Visit(virt: Word) returns (r: Option<(PageTable, nat)>)
      requires Valid()
      ensures r == Walks.Walk(Walks.StepsOf(arch), memory.entries, Table(), virt)
      ensures r.Some? ==> ValidTable(arch, r.value.0) && r.value.1 < arch.entryNum
    {
      var table := Table();
      while true
        invariant ValidTable(arch, table)
        invariant Walks.Walk(Walks.StepsOf(arch), memory.entries, table, virt)
               == Walks.Walk(Walks.StepsOf(arch), memory.entries, Table(), virt)
        decreases table.level
      {
        WalkProofs.StepsOfIndex(arch, table, virt);
        var index := IndexOf(arch, table, virt);
        if index.None? {
          return None;
        }
        if table.level == 0 {
          return Some((table, index.value));
        }
        WalkProofs.StepsOfNext(arch, memory.entries, table, index.value);
        var next := NextLevelTable(arch, memory.entries, table, index.value);
        if next.None? {
          return None;
        }
        WalkProofs.NextLevelTableValid(arch, memory.entries, table, index.value);
        table := next.value;
      }
    }

    /** `translate`: the address and flags of the present last-level entry for `virt`. */
    method Translate(virt: Word) returns (r: Option<(Word, PageFlags)>)
      requires Valid()
      ensures r == Walks.Translate(arch, memory.entries, tablePaddr, virt)
    {
      var leaf := Visit(virt);
      if leaf.None? {
        return None;
      }
      var entry := Entry(arch, memory.entries, leaf.value.0, leaf.value.1);
      if entry.None? {
        return None;
      }
      match entry.value.Address(arch)
      case Err(_) =>
        return None;
      case Ok(paddr) =>
        return Some((paddr, entry.value.Flags(arch)));
    }

    /** `remap`: give the last-level entry for `virt` the flags `flags`; the flush for `virt`, or None. */
    method Remap(virt: Word, flags: PageFlags) returns (r: Option<Word>)
      requires Valid()
      modifies memory
      ensures (r, memory.entries) == Walks.Remap(arch, old(memory.entries), tablePaddr, virt, flags)
    {
      var leaf := Visit(virt);
      if leaf.None? {
        return None;
      }
      var entry := Entry(arch, memory.entries, leaf.value.0, leaf.value.1);
      if entry.None? {
        return None;
      }
      StoreEntry(arch, memory, leaf.value.0, leaf.value.1, entry.value.SetFlags(arch, flags));
      return Some(virt);
    }

    /**
     * `map_phys`, with each new table zeroed before it is linked: NotMapped
     * for an unaligned address or when a frame cannot be had, AlreadyMapped
     * where the source panics.
     */
    method MapPhys(virt: Word, phys: Word, flags: PageFlags, user: bool) returns (r: Walks.MapOutcome)
      requires Valid()
      modifies memory, allocator
      ensures Valid()
      ensures var m := Walks.MapPhys(arch, allocator, old(memory.entries), old(allocator.free), tablePaddr, virt, phys, flags, user);
        r == m.outcome && memory.entries == m.mem && allocator.free == m.free
    {
      if !(Aligned(arch, virt) && Aligned(arch, phys)) {
        return Walks.NotMapped;
      }
      var entry := phys | flags.data;
      var table := Table();
      Theorems.MapPhysLoop(arch, allocator, memory.entries, allocator.free, tablePaddr, virt, phys, flags, user);
      ghost var goal := Walks.MapFrom(Walks.StepsOf(arch), Walks.NewTablesOf(arch, allocator, user), arch,
                                      memory.entries, allocator.free, table, virt, entry, true);
      while true
        invariant Valid() && ValidTable(arch, table)
        invariant Walks.MapFrom(Walks.StepsOf(arch), Walks.NewTablesOf(arch, allocator, user), arch,
                                memory.entries, allocator.free, table, virt, entry, true) == goal
        decreases table.level
      {
        var index := IndexOf(arch, table, virt);
        if index.None? {
          NoIndexStep(arch, allocator, user, memory.entries, allocator.free, table, virt, entry);
          return Walks.NotMapped;
        }
        var i := index.value;
        if table.level == 0 {
          LeafStep(arch, allocator, user, memory.entries, allocator.free, table, i, virt, entry);
          var mapped := EntryMapped(arch, memory.entries, table, i);
          if mapped.value {
            return Walks.AlreadyMapped;
          }
          StoreEntry(arch, memory, table, i, PageEntry(entry));
          return Walks.Mapped(virt);
        }
        var next := NextLevelTable(arch, memory.entries, table, i);
        if next.Some? {
          DescendStep(arch, allocator, user, memory.entries, allocator.free, table, i, virt, entry, next.value);
          table := next.value;
        } else {
          next := Grow(table, i, user, virt, entry);
          if next.None? {
            return Walks.NotMapped;
          }
          table := next.value;
        }
      }
    }

    /**
     * Where entry `i` of `table` holds no table, `map_phys` links in a new
     * one: the rest of the loop for `virt` and `entry` goes on from it, or
     * ends without a mapping when there is none to enter.
     */
    method Grow(table: PageTable, i: nat, user: bool, ghost virt: Word, ghost entry: Word) returns (next: Option<PageTable>)
      requires Valid() && ValidTable(arch, table) && table.level > 0
      requires IndexOf(arch, table, virt) == Some(i) && NextLevelTable(arch, memory.entries, table, i).None?
      modifies memory, allocator
      ensures Valid()
      ensures next.None? ==>
        Walks.MapFrom(Walks.StepsOf(arch), Walks.NewTablesOf(arch, allocator, user), arch,
                      old(memory.entries), old(allocator.free), table, virt, entry, true)
        == Walks.MapResult(Walks.NotMapped, memory.entries, allocator.free)
      ensures next.Some? ==>
        ValidTable(arch, next.value) && next.value.level == table.level - 1
        && Walks.MapFrom(Walks.StepsOf(arch), Walks.NewTablesOf(arch, allocator, user), arch,
                         old(memory.entries), old(allocator.free), table, virt, entry, true)
        == Walks.MapFrom(Walks.StepsOf(arch), Walks.NewTablesOf(arch, allocator, user), arch,
                         memory.entries, allocator.free, next.value, virt, entry, true)
    {
      ghost var mem, free := memory.entries, allocator.free;
      ghost var g := Walks.NewTablesOf(arch, allocator, user);
      next := NewTable(table, i, user);
      if g.allocate(free).None? {
        NoFrameStep(arch, g, mem, free, table, i, virt, entry);
      } else if next.None? {
        GrowDeadStep(arch, g, mem, free, table, i, virt, entry, g.allocate(free).value.0, g.allocate(free).value.1);
      } else {
        GrowStep(arch, g, mem, free, table, i, virt, entry, g.allocate(free).value.0, g.allocate(free).value.1, next.value);
      }
    }

    /**
     * The part of `map_phys` that allocates a table for entry `i` of `table`,
     * zeroes it and links it in: the table it then steps into, or None,
     * with nothing changed, when the allocator has no frame.
     */
    method NewTable(table: PageTable, i: nat, user: bool) returns (next: Option<PageTable>)
      requires Valid() && ValidTable(arch, table)
      modifies memory, allocator
      ensures Valid()
      ensures var g := Walks.NewTablesOf(arch, allocator, user);
        g.allocate(old(allocator.free)).None? ==>
        next.None? && memory.entries == old(memory.entries) && allocator.free == old(allocator.free)
      ensures var g := Walks.NewTablesOf(arch, allocator, user);
        g.allocate(old(allocator.free)).Some? ==>
        var (frame, rest) := g.allocate(old(allocator.free)).value;
        memory.entries == Walks.LinkTable(arch, old(memory.entries), table, i, frame, g.link(frame), true)
        && allocator.free == rest && next == NextLevelTable(arch, memory.entries, table, i)
    {
      var frame := allocator.AllocateOne();
      if frame.None? {
        return None;
      }
      var frameWord := Walks.WordOf(frame.value);
      AllocatedWord(arch, allocator, user, old(allocator.free), frame.value);
      memory.ZeroTable(frameWord, arch.entryNum);
      StoreEntry(arch, memory, table, i, PageEntry(frameWord | Walks.TableFlags(arch, user).data));
      next := NextLevelTable(arch, memory.entries, table, i);
    }

    /** `map`: a frame from the allocator, mapped at `virt` with `map_phys`. */
    method Map(virt: Word, flags: PageFlags, user: bool) returns (r: Walks.MapOutcome)
      requires Valid()
      modifies memory, allocator
      ensures Valid()
      ensures var m := Walks.Map(arch, allocator, old(memory.entries), old(allocator.free), tablePaddr, virt, flags, user);
        r == m.outcome && memory.entries == m.mem && allocator.free == m.free
    {
      var frame := allocator.AllocateOne();
      if frame.None? {
        return Walks.NotMapped;
      }
      r := MapPhys(virt, Walks.WordOf(frame.value), flags, user);
    }

    /** `unmap_phys`: an unaligned `virt` is rejected; otherwise `unmap_phys_inner` from the root. */
    method UnmapPhys(virt: Word, parents: bool) returns (r: Option<(Word, PageFlags)>)
      requires Valid()
      modifies memory, allocator
      ensures Valid()
      ensures var u := Walks.UnmapPhys(arch, allocator, old(memory.entries), old(allocator.free), tablePaddr, virt, parents);
        r == u.result && memory.entries == u.mem && allocator.free == u.free
    {
      if !Aligned(arch, virt) {
        return None;
      }
      r := UnmapPhysInner(arch, memory, allocator, Table(), virt, parents);
    }

    /** `unmap`: `unmap_phys`, then the frame that was mapped goes back to the allocator. */
    method Unmap(virt: Word, parents: bool) returns (r: Option<Word>)
      requires Valid()
      modifies memory, allocator
      ensures Valid()
      ensures var u := Walks.Unmap(arch, allocator, old(memory.entries), old(allocator.free), tablePaddr, virt, parents);
        (r.Some? <==> u.result.Some?) && memory.entries == u.mem && allocator.free == u.free
      ensures r.Some? ==> r.value == virt
    {
      var unmapped := UnmapPhys(virt, parents);
      if unmapped.None? {
        return None;
      }
      allocator.FreeOne(Walks.Usize(unmapped.value.0));
      return Some(virt);
    }
  }
}
