/**
 * Page tables of kernel/src/mm/page.rs: flag words, page-table entries,
 * the index arithmetic of one table, the multi-level walk, and the mapper
 * that maps, remaps, translates and unmaps pages in place, taking frames
 * for new tables from a frame allocator and giving freed tables back.
 *
 * The architecture constants are a parameter (`Arch`) with its stated
 * assumptions; `X86_64` is the four-level instance. Physical memory holding
 * page tables is a map from (table address, entry index) to the entry word;
 * a slot never written reads 0.
 */
module Paging {
  import opened Wrappers
  import Frames
  import Bits

  /** `usize` on a 64-bit target, where bit operations are needed. */
  type Word = bv64

  // ---------------------------------------------------------------------
  // Architecture constants

  /**
   * The constants `page.rs` reads from `MemoryManagementArch`. `PAGE_SIZE`,
   * `PAGE_ENTRY_NUM` and `PAGE_ENTRY_MASK` are derived from the shifts
   * (`Derived`); the proofs use only the assumptions they need of them.
   */
  datatype Arch = Arch(
    pageShift: bv7,
    entryShift: bv7,
    pageLevels: nat,
    pageSize: Word,
    entryNum: nat,
    entryMask: Word,
    entrySize: Word,
    pageAddressMask: Word,
    entryFlagsMask: Word,
    flagPresent: Word,
    flagReadOnly: Word,
    flagReadWrite: Word,
    flagUser: Word,
    flagExec: Word,
    flagNoExec: Word,
    flagDefaultTable: Word)
  {
    /**
     * At least one level, a table has entries, and the shifts of all levels
     * fit in a word and increase (`ShiftsFit`).
     */
    predicate WellFormed()
    {
      pageShift >= 1 && entryShift >= 1 && pageLevels >= 1
      && 1 <= entryNum < Frames.USIZE_LIMIT
      && ShiftsFit(pageLevels - 1)
    }

    /**
     * The shifts of levels 0 to `level` are at most 64 and each lies above
     * the one below it, so the 7-bit sums in `Shift` never wrap.
     */
    predicate ShiftsFit(level: nat)
    {
      Shift(level) <= 64 && (level == 0 || (Shift(level - 1) < Shift(level) && ShiftsFit(level - 1)))
    }

    /** `PAGE_SIZE == 1 << PAGE_SHIFT`, `PAGE_ENTRY_NUM == 1 << PAGE_ENTRY_SHIFT`, `PAGE_ENTRY_MASK == PAGE_ENTRY_NUM - 1`. */
    predicate Derived()
      requires pageShift < 64 && entryShift < 64
    {
      pageSize == (1 as Word) << pageShift
      && entryMask == ((1 as Word) << entryShift) - 1
      && entryNum == entryMask as int + 1
    }

    /** `PAGE_SIZE` is a power of two. */
    predicate PageSizePowerOfTwo()
    {
      pageSize != 0 && pageSize & (pageSize - 1) == 0
    }

    /**
     * `PAGE_SHIFT + level * PAGE_ENTRY_SHIFT`, how far an entry of a table at
     * `level` reaches, accumulated one level at a time.
     */
    function Shift(level: nat): bv7
    {
      if level == 0 then pageShift else Shift(level - 1) + entryShift
    }
  }

  /** Deriving `PAGE_SIZE` from `PAGE_SHIFT` makes it a power of two. */
  lemma DerivedPageSizePowerOfTwo(a: Arch)
    requires a.pageShift < 64 && a.entryShift < 64 && a.Derived()
    ensures a.PageSizePowerOfTwo()
  {
    Bits.PowerOfTwo(a.pageShift);
    Bits.PowerOfTwoMask(a.pageShift);
  }

  /** The four-level x86_64 constants: 4 KiB pages, 512 entries of 8 bytes, 48-bit addresses. */
  const X86_64: Arch := Arch(
    pageShift := 12,
    entryShift := 9,
    pageLevels := 4,
    pageSize := 0x1000,
    entryNum := 512,
    entryMask := 0x1ff,
    entrySize := 8,
    pageAddressMask := 0x0000_ffff_ffff_f000,
    entryFlagsMask := 0xfff0_0000_0000_0fff,
    flagPresent := 0x1,
    flagReadOnly := 0,
    flagReadWrite := 0x2,
    flagUser := 0x4,
    flagExec := 0,
    flagNoExec := 0x8000_0000_0000_0000,
    flagDefaultTable := 0x1)

  /** The x86_64 constants are consistent: derived from their shifts, with disjoint masks. */
  lemma X86WellFormed()
    ensures X86_64.WellFormed() && X86_64.Derived() && MasksDisjoint(X86_64)
    ensures X86_64.ShiftsFit(0) && X86_64.ShiftsFit(1) && X86_64.ShiftsFit(2) && X86_64.ShiftsFit(3)
  {
    assert X86_64.Shift(0) == 12;
    assert X86_64.Shift(1) == 21;
    assert X86_64.Shift(2) == 30;
    assert X86_64.Shift(3) == 39;
  }

  /** `check_aligned(PAGE_SIZE)` of a virtual or physical address. */
  predicate Aligned(a: Arch, addr: Word)
  {
    addr & (a.pageSize - 1) == 0
  }

  // ---------------------------------------------------------------------
  // Flags

  /** `PageFlags`: the flag bits of an entry. */
  datatype PageFlags = PageFlags(data: Word)
  {
    /** `new_page_table`: the default flags for a new table's entry. */
    static function NewPageTable(a: Arch): PageFlags
    {
      PageFlags(a.flagDefaultTable | a.flagReadOnly | a.flagNoExec)
    }

    /** `update_flags`: set (`value`) or clear every bit of `flag`. */
    function UpdateFlags(flag: Word, value: bool): PageFlags
    {
      if value then PageFlags(data | flag) else PageFlags(data & !flag)
    }

    /** `has_flag`: every bit of `flag` is set. */
    predicate HasFlag(flag: Word)
    {
      data & flag == flag
    }

    predicate Present(a: Arch)
    {
      HasFlag(a.flagPresent)
    }

    function SetUser(a: Arch, value: bool): PageFlags
    {
      UpdateFlags(a.flagUser, value)
    }

    predicate User(a: Arch)
    {
      HasFlag(a.flagUser)
    }

    /** `set_write`: the read-only bits take `!value`, then the read-write bits take `value`. */
    function SetWrite(a: Arch, value: bool): PageFlags
    {
      UpdateFlags(a.flagReadOnly, !value).UpdateFlags(a.flagReadWrite, value)
    }

    /** `write`: of the read-write and read-only bits, exactly the read-write ones are set. */
    predicate Write(a: Arch)
    {
      data & (a.flagReadWrite | a.flagReadOnly) == a.flagReadWrite
    }

    function SetExecute(a: Arch, value: bool): PageFlags
    {
      UpdateFlags(a.flagNoExec, !value).UpdateFlags(a.flagExec, value)
    }

    predicate Execute(a: Arch)
    {
      data & (a.flagExec | a.flagNoExec) == a.flagExec
    }
  }

  /** Setting a flag sets every one of its bits. */
  lemma UpdateFlagsSets(f: PageFlags, flag: Word)
    ensures f.UpdateFlags(flag, true).HasFlag(flag)
  {
    Bits.OrSets(f.data, flag);
  }

  /** Clearing a flag clears every one of its bits. */
  lemma UpdateFlagsClears(f: PageFlags, flag: Word)
    ensures f.UpdateFlags(flag, false).data & flag == 0
  {
    Bits.AndNotClears(f.data, flag);
  }

  /** Clearing a nonzero flag makes `has_flag` false. */
  lemma UpdateFlagsClearedLacks(f: PageFlags, flag: Word)
    requires flag != 0
    ensures !f.UpdateFlags(flag, false).HasFlag(flag)
  {
    Bits.ClearedLacks(f.data, flag);
  }

  /** Bits outside `flag` are unchanged by `update_flags`. */
  lemma UpdateFlagsKeepsOthers(f: PageFlags, flag: Word, value: bool)
    ensures f.UpdateFlags(flag, value).data & !flag == f.data & !flag
  {
    if value {
      Bits.OrKeepsOthers(f.data, flag);
    } else {
      Bits.AndNotKeepsOthers(f.data, flag);
    }
  }

  /** Repeating an update changes nothing more. */
  lemma UpdateFlagsIdempotent(f: PageFlags, flag: Word, value: bool)
    ensures f.UpdateFlags(flag, value).UpdateFlags(flag, value) == f.UpdateFlags(flag, value)
  {
    if value {
      Bits.OrIdempotent(f.data, flag);
    } else {
      Bits.AndNotKeepsOthers(f.data, flag);
    }
  }

  /** `has_flag` holds exactly when setting the flag is a no-op. */
  lemma HasFlagIffSetIsNoop(f: PageFlags, flag: Word)
    ensures f.HasFlag(flag) <==> f.UpdateFlags(flag, true) == f
  {
    if f.HasFlag(flag) {
      HasFlagThenSetIsNoop(f, flag);
    } else {
      LacksFlagThenSetChanges(f, flag);
    }
  }

  lemma HasFlagThenSetIsNoop(f: PageFlags, flag: Word)
    requires f.HasFlag(flag)
    ensures f.UpdateFlags(flag, true) == f
  {
    Bits.HasThenOrNoop(f.data, flag);
  }

  lemma LacksFlagThenSetChanges(f: PageFlags, flag: Word)
    requires !f.HasFlag(flag)
    ensures f.UpdateFlags(flag, true) != f
  {
    if f.UpdateFlags(flag, true) == f {
      Bits.OrNoopThenHas(f.data, flag);
    }
  }

  /** `set_write(v).write() == v`, when the read-write and read-only bits are disjoint and differ. */
  lemma SetWriteThenWrite(a: Arch, f: PageFlags, value: bool)
    requires a.flagReadWrite & a.flagReadOnly == 0 && a.flagReadWrite != a.flagReadOnly
    ensures f.SetWrite(a, value).Write(a) == value
  {
    if value {
      SetWriteGivesWrite(a, f);
    } else {
      ClearedWriteLacksWrite(a, f);
    }
  }

  lemma SetWriteGivesWrite(a: Arch, f: PageFlags)
    requires a.flagReadWrite & a.flagReadOnly == 0
    ensures f.SetWrite(a, true).Write(a)
  {
    Bits.PairOn(f.data, a.flagReadOnly, a.flagReadWrite);
  }

  lemma ClearedWriteLacksWrite(a: Arch, f: PageFlags)
    requires a.flagReadWrite & a.flagReadOnly == 0 && a.flagReadWrite != a.flagReadOnly
    ensures !f.SetWrite(a, false).Write(a)
  {
    Bits.PairOff(f.data, a.flagReadOnly, a.flagReadWrite);
  }

  /** `set_execute(v).execute() == v`, when the exec and no-exec bits are disjoint and differ. */
  lemma SetExecuteThenExecute(a: Arch, f: PageFlags, value: bool)
    requires a.flagExec & a.flagNoExec == 0 && a.flagExec != a.flagNoExec
    ensures f.SetExecute(a, value).Execute(a) == value
  {
    if value {
      SetExecuteGivesExecute(a, f);
    } else {
      ClearedExecuteLacksExecute(a, f);
    }
  }

  lemma SetExecuteGivesExecute(a: Arch, f: PageFlags)
    requires a.flagExec & a.flagNoExec == 0
    ensures f.SetExecute(a, true).Execute(a)
  {
    Bits.PairOn(f.data, a.flagNoExec, a.flagExec);
  }

  lemma ClearedExecuteLacksExecute(a: Arch, f: PageFlags)
    requires a.flagExec & a.flagNoExec == 0 && a.flagExec != a.flagNoExec
    ensures !f.SetExecute(a, false).Execute(a)
  {
    Bits.PairOff(f.data, a.flagNoExec, a.flagExec);
  }

  /** `set_user(v).user() == v` for a nonzero user bit. */
  lemma SetUserThenUser(a: Arch, f: PageFlags, value: bool)
    requires a.flagUser != 0
    ensures f.SetUser(a, value).User(a) == value
  {
    if value {
      UpdateFlagsSets(f, a.flagUser);
    } else {
      UpdateFlagsClearedLacks(f, a.flagUser);
    }
  }

  /** On x86_64 a new table's default flags are present, read-only, kernel-only and not executable. */
  lemma NewPageTableX86()
    ensures var f := PageFlags.NewPageTable(X86_64);
      f.Present(X86_64) && !f.Write(X86_64) && !f.User(X86_64) && !f.Execute(X86_64)
  {
  }

  // ---------------------------------------------------------------------
  // Entries

  /** `PageEntry`: one word of a page table. */
  datatype PageEntry = PageEntry(data: Word)
  {
    predicate Present(a: Arch)
    {
      data & a.flagPresent != 0
    }

    /** `address`: the masked address, as `Ok` if the entry is present and as `Err` if not. */
    function Address(a: Arch): (r: Result<Word, Word>)
      ensures r.Ok? <==> Present(a)
      ensures r.Ok? ==> r.value == data & a.pageAddressMask
      ensures r.Err? ==> r.error == data & a.pageAddressMask
    {
      var paddr := data & a.pageAddressMask;
      if Present(a) then Ok(paddr) else Err(paddr)
    }

    function Flags(a: Arch): PageFlags
    {
      PageFlags(data & a.entryFlagsMask)
    }

    /** `set_flags`, as the entry it leaves: the flag bits are replaced by `flags`. */
    function SetFlags(a: Arch, flags: PageFlags): PageEntry
    {
      PageEntry((data & !a.entryFlagsMask) | flags.data)
    }
  }

  /** The masks a correct architecture provides: disjoint, with the present bit among the flags. */
  predicate MasksDisjoint(a: Arch)
  {
    a.pageAddressMask & a.entryFlagsMask == 0 && a.flagPresent & !a.entryFlagsMask == 0
  }

  /** An address inside the address mask. */
  predicate InAddressMask(a: Arch, phys: Word)
  {
    phys & !a.pageAddressMask == 0
  }

  /** Flags inside the flag mask. */
  predicate InFlagsMask(a: Arch, flags: PageFlags)
  {
    flags.data & !a.entryFlagsMask == 0
  }

  /** The entry `phys | flags` that `map_phys` builds gives back its flags. */
  lemma EntryFlagsOf(a: Arch, phys: Word, flags: PageFlags)
    requires MasksDisjoint(a) && InAddressMask(a, phys) && InFlagsMask(a, flags)
    ensures PageEntry(phys | flags.data).Flags(a) == flags
  {
    Bits.JoinLow(phys, flags.data, a.pageAddressMask, a.entryFlagsMask);
  }

  lemma EntryMaskedAddress(a: Arch, phys: Word, flags: PageFlags)
    requires MasksDisjoint(a) && InAddressMask(a, phys) && InFlagsMask(a, flags)
    ensures (phys | flags.data) & a.pageAddressMask == phys
  {
    Bits.JoinHigh(phys, flags.data, a.pageAddressMask, a.entryFlagsMask);
  }

  /** The entry `phys | flags` is present exactly when the present bit is among `flags`. */
  lemma EntryPresentOf(a: Arch, phys: Word, flags: PageFlags)
    requires MasksDisjoint(a) && InAddressMask(a, phys)
    ensures PageEntry(phys | flags.data).data & a.flagPresent == flags.data & a.flagPresent
  {
  }

  /** `set_flags(f)` with `f` inside the flag mask makes `flags() == f`. */
  lemma SetFlagsFlags(a: Arch, e: PageEntry, flags: PageFlags)
    requires InFlagsMask(a, flags)
    ensures e.SetFlags(a, flags).Flags(a) == flags
  {
    Bits.ReplaceLow(e.data, flags.data, a.entryFlagsMask);
  }

  /** `set_flags(f)` with `f` inside the flag mask leaves every bit outside the mask as it was. */
  lemma SetFlagsKeepsOthers(a: Arch, e: PageEntry, flags: PageFlags)
    requires InFlagsMask(a, flags)
    ensures e.SetFlags(a, flags).data & !a.entryFlagsMask == e.data & !a.entryFlagsMask
  {
    Bits.ReplaceKeepsRest(e.data, flags.data, a.entryFlagsMask);
  }

  lemma SetFlagsMaskedAddress(a: Arch, e: PageEntry, flags: PageFlags)
    requires MasksDisjoint(a) && InFlagsMask(a, flags)
    ensures e.SetFlags(a, flags).data & a.pageAddressMask == e.data & a.pageAddressMask
  {
  }

  lemma SetFlagsPresent(a: Arch, e: PageEntry, flags: PageFlags)
    requires MasksDisjoint(a)
    ensures e.SetFlags(a, flags).data & a.flagPresent == flags.data & a.flagPresent
  {
    Bits.ReplaceBit(e.data, flags.data, a.entryFlagsMask, a.flagPresent);
  }

  // ---------------------------------------------------------------------
  // Memory holding page tables

  /** Entry words by (table physical address, entry index). */
  type Mem = map<(Word, nat), Word>

  /** `Arch::read` of an entry: a slot never written reads 0. */
  function Read(mem: Mem, phys: Word, i: nat): Word
  {
    if (phys, i) in mem then mem[(phys, i)] else 0
  }

  function Write(mem: Mem, phys: Word, i: nat, v: Word): (m: Mem)
    ensures forall q: Word, j: nat :: Read(m, q, j) == if (q, j) == (phys, i) then v else Read(mem, q, j)
  {
    mem[(phys, i) := v]
  }

  /** The state page tables live in, as a class: `Arch::write` updates it in place. */
  class PhysMemory {
    var entries: Mem

    constructor (entries: Mem)
      ensures this.entries == entries
    {
      this.entries := entries;
    }

    method WriteWord(phys: Word, i: nat, v: Word)
      modifies this
      ensures entries == Write(old(entries), phys, i, v)
    {
      entries := Write(entries, phys, i, v);
    }

    /** Zero the `n` entries of the table at `phys`. */
    method ZeroTable(phys: Word, n: nat)
      modifies this
      ensures entries == Cleared(old(entries), phys, n)
    {
      entries := Cleared(entries, phys, n);
    }
  }

  /** Memory with the first `n` entries of the table at `phys` zeroed. */
  function Cleared(mem: Mem, phys: Word, n: nat): (m: Mem)
    ensures forall q: Word, j: nat :: Read(m, q, j) == if q == phys && j < n then 0 else Read(mem, q, j)
  {
    map k | k in mem && !(k.0 == phys && k.1 < n) :: mem[k]
  }

  // ---------------------------------------------------------------------
  // One table

  /**
   * `PageTable`: the start of the virtual range the table covers, the
   * table's physical address, and its level (0 for the last level).
   */
  datatype PageTable = PageTable(base: Word, phys: Word, level: nat)

  predicate ValidTable(a: Arch, t: PageTable)
  {
    a.WellFormed() && t.level < a.pageLevels && a.ShiftsFit(t.level)
  }

  /** `entry_base`: where the virtual range of entry `i` starts. */
  function EntryBase(a: Arch, t: PageTable, i: nat): (r: Option<Word>)
    requires ValidTable(a, t)
    ensures r.None? <==> i >= a.entryNum
  {
    if i < a.entryNum then Some(t.base + ((i as Word) << a.Shift(t.level))) else None
  }

  /** `entry_virt`, given the table's own virtual address (`Arch::phys_2_virt` of its physical address). */
  function EntryVirt(a: Arch, tableVirt: Word, i: nat): (r: Option<Word>)
    requires a.WellFormed()
    ensures r.None? <==> i >= a.entryNum
  {
    if i < a.entryNum then Some(tableVirt + (i as Word) * a.entrySize) else None
  }

  /** `entry`: the entry word at index `i`. */
  function Entry(a: Arch, mem: Mem, t: PageTable, i: nat): (r: Option<PageEntry>)
    requires a.WellFormed()
    ensures r.None? <==> i >= a.entryNum
    ensures r.Some? ==> r.value.data == Read(mem, t.phys, i)
  {
    if i < a.entryNum then Some(PageEntry(Read(mem, t.phys, i))) else None
  }

  /** `entry_mapped`: whether the raw word at index `i` is nonzero. */
  function EntryMapped(a: Arch, mem: Mem, t: PageTable, i: nat): (r: Option<bool>)
    requires a.WellFormed()
    ensures r.None? <==> i >= a.entryNum
    ensures r.Some? ==> (r.value <==> Read(mem, t.phys, i) != 0)
  {
    if i < a.entryNum then Some(Read(mem, t.phys, i) != 0) else None
  }

  /** `set_entry`, as the memory it leaves: the word is written only for an index inside the table. */
  function SetEntry(a: Arch, mem: Mem, t: PageTable, i: nat, e: PageEntry): (m: Mem)
    requires a.WellFormed()
    ensures i < a.entryNum ==> m == Write(mem, t.phys, i, e.data)
    ensures i >= a.entryNum ==> m == mem
  {
    if i < a.entryNum then Write(mem, t.phys, i, e.data) else mem
  }

  /**
   * `index_of` as written: the address is masked and shifted, the table's
   * base is not subtracted, and an index past the table is rejected.
   */
  function IndexOfAsWritten(a: Arch, t: PageTable, addr: Word): Option<nat>
    requires ValidTable(a, t)
  {
    var index := (addr & a.pageAddressMask) >> a.Shift(t.level);
    if index as int >= a.entryNum then None else Some((index & a.entryMask) as int)
  }

  /**
   * `index_of` as its documentation describes it: the index of the entry
   * covering `addr` within this table's range, None outside the range.
   */
  function IndexOf(a: Arch, t: PageTable, addr: Word): (r: Option<nat>)
    requires ValidTable(a, t)
    ensures r.Some? ==> r.value < a.entryNum
  {
    var masked := addr & a.pageAddressMask;
    if masked < t.base then None
    else
      var index := ((masked - t.base) >> a.Shift(t.level)) as int;
      if index >= a.entryNum then None else Some(index)
  }

  /** `next_level_table`: the table entry `i` points to, one level down. */
  function NextLevelTable(a: Arch, mem: Mem, t: PageTable, i: nat): (r: Option<PageTable>)
    requires ValidTable(a, t)
    ensures r.None? <==> t.level == 0 || i >= a.entryNum || !PageEntry(Read(mem, t.phys, i)).Present(a)
    ensures r.Some? ==>
      r.value.level == t.level - 1
      && r.value.base == EntryBase(a, t, i).value
      && r.value.phys == Read(mem, t.phys, i) & a.pageAddressMask
  {
    if t.level == 0 then None
    else
      match EntryBase(a, t, i)
      case None => None
      case Some(base) =>
        match Entry(a, mem, t, i)
        case None => None
        case Some(e) =>
          match e.Address(a)
          case Err(_) => None
          case Ok(phys) => Some(PageTable(base, phys, t.level - 1))
  }

  // ---------------------------------------------------------------------
  // Rounding

  /**
   * `round_down_to_page_size` and `round_up_to_page_size` use the page size
   * of the architecture the kernel is built for, x86_64's 4 KiB.
   */
  const PAGE_SIZE: Word := 0x1000

  /** `round_down_to_page_size`. */
  function RoundDown(addr: Word): Word
  {
    addr & !(PAGE_SIZE - 1)
  }

  /** `round_up_to_page_size`: rounds `addr + PAGE_SIZE - 1` down, wrapping on overflow. */
  function RoundUp(addr: Word): Word
  {
    RoundDown(addr + PAGE_SIZE - 1)
  }

  /** Alignment to the page size rounding uses, which is that of `X86_64`. */
  predicate PageAligned(addr: Word)
  {
    addr & (PAGE_SIZE - 1) == 0
  }

  lemma PageSizeIsX86()
    ensures PAGE_SIZE == X86_64.pageSize
    ensures forall addr :: PageAligned(addr) <==> Aligned(X86_64, addr)
  {
  }

  lemma RoundDownAligned(addr: Word)
    ensures PageAligned(RoundDown(addr))
  {
  }

  lemma RoundDownBelow(addr: Word)
    ensures RoundDown(addr) <= addr
  {
  }

  /** Rounding down moves less than a page. */
  lemma RoundDownClose(addr: Word)
    ensures addr - RoundDown(addr) < PAGE_SIZE
  {
  }

  /** Rounding down keeps exactly the aligned addresses. */
  lemma RoundDownFixedIffAligned(addr: Word)
    ensures PageAligned(addr) <==> RoundDown(addr) == addr
  {
  }

  lemma RoundUpAligned(addr: Word)
    ensures PageAligned(RoundUp(addr))
  {
  }

  /** Rounding up does not go below `addr` when `addr + PAGE_SIZE - 1` does not overflow. */
  lemma RoundUpAbove(addr: Word)
    requires addr <= 0xffff_ffff_ffff_ffff - (PAGE_SIZE - 1)
    ensures RoundUp(addr) >= addr
  {
  }

  /** Rounding up moves less than a page when `addr + PAGE_SIZE - 1` does not overflow. */
  lemma RoundUpClose(addr: Word)
    requires addr <= 0xffff_ffff_ffff_ffff - (PAGE_SIZE - 1)
    ensures RoundUp(addr) - addr < PAGE_SIZE
  {
  }

  /** Rounding up keeps exactly the aligned addresses, when `addr + PAGE_SIZE - 1` does not overflow. */
  lemma RoundUpFixedIffAligned(addr: Word)
    requires addr <= 0xffff_ffff_ffff_ffff - (PAGE_SIZE - 1)
    ensures PageAligned(addr) <==> RoundUp(addr) == addr
  {
  }

  /** Past the last page, rounding up wraps around to 0. */
  lemma RoundUpWraps()
    ensures RoundUp(0xffff_ffff_ffff_f001) == 0
  {
  }
}
