/**
 * Page-frame arithmetic and the frame-allocator interface of
 * kernel/src/mm/allocator/page_frame.rs: frame numbers and the addresses
 * they stand for, the range iterators, usage accounting, the allocator with
 * its `allocate_one`/`free_one` defaults and `&mut T` forwarding, and the
 * two free functions that go through the global allocator.
 */
module Frames {
  import opened Wrappers

  /** One more than the largest `usize` on a 64-bit target. */
  const USIZE_LIMIT: nat := 0x1_0000_0000_0000_0000

  type usize = x: nat | x < USIZE_LIMIT

  /** `MMArch::PAGE_SIZE`: any positive size (a power of two on every architecture). */
  type PageSize = p: usize | p > 0 witness 4096

  /** Arithmetic on `usize` in a release build: the result is taken modulo 2^64. */
  function Wrap(x: nat): (r: usize)
    ensures x < USIZE_LIMIT ==> r == x
  {
    x % USIZE_LIMIT
  }

  // ---------------------------------------------------------------------
  // Division and multiplication facts about page numbers

  lemma MulStep(a: nat, b: nat, ps: nat)
    ensures a < b ==> a * ps + ps <= b * ps
  {
    if a < b {
      var k: nat := b - a - 1;
      assert b == a + 1 + k;
      assert (a + 1 + k) * ps == a * ps + ps + k * ps;
      assert k * ps >= 0;
    }
  }

  lemma DivUnique(x: nat, ps: nat, q: nat)
    requires ps > 0 && q * ps <= x < q * ps + ps
    ensures x / ps == q
  {
    var d := x / ps;
    assert x == d * ps + x % ps;
    MulStep(d, q, ps);
    MulStep(q, d, ps);
  }

  lemma MulDiv(n: nat, ps: nat)
    requires ps > 0
    ensures (n * ps) / ps == n
  {
    DivUnique(n * ps, ps, n);
  }

  lemma DivMono(p: nat, q: nat, ps: nat)
    requires ps > 0 && p <= q
    ensures p / ps <= q / ps
  {
    var a, b := p / ps, q / ps;
    assert p == a * ps + p % ps;
    assert q == b * ps + q % ps;
    MulStep(b, a, ps);
  }

  // ---------------------------------------------------------------------
  // Frames

  /**
   * `PhysPageFrame` and `VirtPageFrame` have the same single field, the page
   * number, and the same methods; both are this datatype. The derived
   * ordering compares the page number.
   */
  datatype PageFrame = PageFrame(number: usize)
  {
    /** `new`: the frame containing address `addr`. */
    static function New(addr: usize, ps: PageSize): (f: PageFrame)
      ensures f.number * ps <= addr < f.number * ps + ps
    {
      PageFrame(addr / ps)
    }

    /** `phys_address` / `virt_address`: the first address of the frame, wrapping on overflow. */
    function Address(ps: PageSize): usize
    {
      Wrap(number * ps)
    }

    /** `next_by`: the frame `n` frames further on, wrapping on overflow. */
    function NextBy(n: usize): (f: PageFrame)
      ensures number + n < USIZE_LIMIT ==> f.number == number + n
    {
      PageFrame(Wrap(number + n))
    }

    /** `next`: `next_by(1)`. */
    function Next(): (f: PageFrame)
      ensures f == NextBy(1)
      ensures number + 1 < USIZE_LIMIT ==> f.number == number + 1
    {
      NextBy(1)
    }

    /** The derived `PartialOrd`: frames compare by page number. */
    predicate Le(other: PageFrame)
    {
      number <= other.number
    }
  }

  /** The frame's address is the address it was built from, rounded down to the page size. */
  lemma NewThenAddress(addr: usize, ps: PageSize)
    ensures PageFrame.New(addr, ps).Address(ps) == addr - addr % ps
    ensures PageFrame.New(addr, ps).Address(ps) % ps == 0
    ensures PageFrame.New(addr, ps).Address(ps) <= addr < PageFrame.New(addr, ps).Address(ps) + ps
  {
    var n := addr / ps;
    assert n * ps <= addr;
    assert PageFrame.New(addr, ps).Address(ps) == n * ps;
    assert (n * ps) % ps == 0 by {
      MulDiv(n, ps);
      assert n * ps == ((n * ps) / ps) * ps + (n * ps) % ps;
    }
  }

  /** Building a frame from its own address gives the frame back, when that address does not overflow. */
  lemma AddressThenNew(f: PageFrame, ps: PageSize)
    requires f.number * ps < USIZE_LIMIT
    ensures PageFrame.New(f.Address(ps), ps) == f
  {
    MulDiv(f.number, ps);
  }

  /** `new` is monotone: a higher address never gives a lower frame. */
  lemma NewMonotone(p: usize, q: usize, ps: PageSize)
    requires p <= q
    ensures PageFrame.New(p, ps).Le(PageFrame.New(q, ps))
  {
    DivMono(p, q, ps);
  }

  /** Stepping `a` then `b` frames is stepping `a + b` frames, wrap-around included. */
  lemma NextByAdds(f: PageFrame, a: usize, b: usize)
    ensures f.NextBy(a).NextBy(b) == f.NextBy(Wrap(a + b))
  {
    var x := f.number;
    var y := (x + a) % USIZE_LIMIT;
    assert x + a == USIZE_LIMIT * ((x + a) / USIZE_LIMIT) + y;
    ModShift(y + b, (x + a) / USIZE_LIMIT);
    var z := (a + b) % USIZE_LIMIT;
    assert a + b == USIZE_LIMIT * ((a + b) / USIZE_LIMIT) + z;
    ModShift(x + z, (a + b) / USIZE_LIMIT);
  }

  lemma ModShift(x: nat, k: nat)
    ensures (x + USIZE_LIMIT * k) % USIZE_LIMIT == x % USIZE_LIMIT
  {
    var q, r := x / USIZE_LIMIT, x % USIZE_LIMIT;
    assert x + USIZE_LIMIT * k == USIZE_LIMIT * (q + k) + r;
  }

  /** Without overflow, the frame `n` further on starts `n` pages further on. */
  lemma NextByAddress(f: PageFrame, n: usize, ps: PageSize)
    requires (f.number + n) * ps < USIZE_LIMIT
    ensures f.NextBy(n).Address(ps) == f.Address(ps) + n * ps
  {
    var x := f.number;
    var k: nat := ps - 1;
    assert (x + n) * ps == (x + n) + (x + n) * k;
    assert (x + n) * ps == x * ps + n * ps;
  }

  // ---------------------------------------------------------------------
  // Range iterators

  /** The frames `[start, end)` the iterators are documented to yield. */
  function FrameRange(start: PageFrame, end: PageFrame): (r: seq<PageFrame>)
    requires start.Le(end)
    ensures |r| == end.number - start.number
    ensures forall k :: 0 <= k < |r| ==> r[k].number == start.number + k
    decreases end.number - start.number
  {
    if start == end then [] else [start] + FrameRange(start.Next(), end)
  }

  /**
   * `PhysPageFrameIter` / `VirtPageFrameIter` as created by `iter_range`.
   * `NextAsWritten` is `next` as the source has it; `Next` is the iterator
   * the `[start, end)` comment describes.
   */
  class PageFrameIter {
    var current: PageFrame
    var end: PageFrame

    /** `iter_range(start, end)`. */
    constructor IterRange(start: PageFrame, end: PageFrame)
      ensures current == start && this.end == end
    {
      current := start;
      this.end := end;
    }

    /** `next` as written: never assigns `current`, so it changes nothing. */
    method NextAsWritten() returns (r: Option<PageFrame>)
      ensures r.None? <==> current == end
      ensures r.Some? ==> r.value == current.Next()
    {
      if current == end {
        return None;
      }
      var next := current.Next();
      return Some(next);
    }

    /** `next` yielding the current frame and stepping past it. */
    method Next() returns (r: Option<PageFrame>)
      modifies this
      ensures old(current) == end ==> r.None? && current == old(current)
      ensures old(current) != end ==> r == Some(old(current)) && current == old(current).Next()
      ensures this.end == old(this.end)
    {
      if current == end {
        return None;
      }
      r := Some(current);
      current := current.Next();
    }
  }

  /** What `k` calls of a correct `next` yield from `[current, end)`, with the last call's None. */
  function Drain(current: PageFrame, end: PageFrame): (r: seq<Option<PageFrame>>)
    requires current.Le(end)
    decreases end.number - current.number
  {
    if current == end then [None] else [Some(current)] + Drain(current.Next(), end)
  }

  /** A correct iterator yields exactly `[start, end)` in order and then None. */
  lemma {:induction false} DrainIsRange(start: PageFrame, end: PageFrame)
    requires start.Le(end)
    ensures |Drain(start, end)| == |FrameRange(start, end)| + 1
    ensures Drain(start, end)[|FrameRange(start, end)|] == None
    ensures forall k :: 0 <= k < |FrameRange(start, end)| ==> Drain(start, end)[k] == Some(FrameRange(start, end)[k])
    decreases end.number - start.number
  {
    if start != end {
      DrainIsRange(start.Next(), end);
    }
  }

  /**
   * As written, `next` on an iterator over `[0, 1)` yields frame 1, which
   * lies outside the range, and since the iterator never changes, every
   * later call yields frame 1 again: after `n` calls None has still not
   * come. A correct iterator yields frame 0 and then None.
   */
  method IterAsWrittenCounterexample(n: nat) returns (results: seq<Option<PageFrame>>)
    ensures |results| == n
    ensures forall k :: 0 <= k < n ==> results[k] == Some(PageFrame(1))
    ensures PageFrame(1) !in FrameRange(PageFrame(0), PageFrame(1))
    ensures Drain(PageFrame(0), PageFrame(1)) == [Some(PageFrame(0)), None]
  {
    var iter := new PageFrameIter.IterRange(PageFrame(0), PageFrame(1));
    results := [];
    while |results| < n
      invariant |results| <= n
      invariant iter.current == PageFrame(0) && iter.end == PageFrame(1)
      invariant forall k :: 0 <= k < |results| ==> results[k] == Some(PageFrame(1))
    {
      var r := iter.NextAsWritten();
      results := results + [r];
    }
    assert FrameRange(PageFrame(0), PageFrame(1))[0] == PageFrame(0);
  }

  // ---------------------------------------------------------------------
  // Counting

  /** `PageFrameCount`: a number of frames. */
  datatype PageFrameCount = PageFrameCount(data: usize)

  /** `PageFrameUsage`: how many frames are in use out of how many. */
  datatype PageFrameUsage = PageFrameUsage(used: PageFrameCount, total: PageFrameCount)
  {
    /** `free`: `total - used`; the subtraction panics on underflow in a debug build. */
    function Free(): (r: PageFrameCount)
      requires used.data <= total.data
      ensures r.data + used.data == total.data
    {
      PageFrameCount(total.data - used.data)
    }
  }

  // ---------------------------------------------------------------------
  // The allocator

  /** Frame numbers `[first, first + count)`. */
  function Run(first: nat, count: nat): (r: set<nat>)
    ensures forall j :: j in r <==> first <= j < first + count
    decreases count
  {
    if count == 0 then {} else Run(first, count - 1) + {first + count - 1}
  }

  /** Every frame of the run starting at `first` is free. */
  predicate RunFree(free: set<nat>, first: nat, count: nat)
  {
    forall j :: first <= j < first + count ==> j in free
  }

  /** The lowest run of `count` free frames starting at or after `from` and ending at or before `limit`. */
  function LowestRun(free: set<nat>, count: nat, from: nat, limit: nat): (r: Option<nat>)
    ensures r.Some? ==> from <= r.value && r.value + count <= limit && RunFree(free, r.value, count)
    ensures r.Some? ==> forall g :: from <= g < r.value ==> !RunFree(free, g, count)
    ensures r.None? ==> forall g :: from <= g && g + count <= limit ==> !RunFree(free, g, count)
    decreases limit - from
  {
    if from + count > limit then None
    else if RunFree(free, from, count) then Some(from)
    else LowestRun(free, count, from + 1, limit)
  }

  /**
   * The allocator behind `LockedFrameAllocator`, whose implementation is not
   * part of this model: frames `[0, frameCount)` of `pageSize` bytes, of
   * which `free` are free. `allocate` hands out the lowest run of free
   * frames.
   */
  class FrameAllocator {
    const pageSize: PageSize
    const frameCount: usize
    var free: set<nat>

    ghost predicate Valid()
      reads this
    {
      frameCount * pageSize <= USIZE_LIMIT
      && forall f :: f in free ==> f < frameCount
    }

    constructor (pageSize: PageSize, frameCount: usize)
      requires frameCount * pageSize <= USIZE_LIMIT
      ensures Valid()
      ensures this.pageSize == pageSize && this.frameCount == frameCount
      ensures free == Run(0, frameCount)
    {
      this.pageSize := pageSize;
      this.frameCount := frameCount;
      free := Run(0, frameCount);
    }

    /** The first frame `allocate(count)` hands out, if any. */
    function Allocation(free: set<nat>, count: nat): Option<nat>
    {
      if count == 0 then None else LowestRun(free, count, 0, frameCount)
    }

    /** `allocate`: the address of the lowest run of `count` free frames, which stop being free. */
    method Allocate(count: usize) returns (r: Option<usize>)
      requires Valid()
      modifies this
      ensures Valid()
      ensures Allocation(old(free), count).None? ==> r.None? && free == old(free)
      ensures Allocation(old(free), count).Some? ==>
        r == Some(Allocation(old(free), count).value * pageSize)
        && free == old(free) - Run(Allocation(old(free), count).value, count)
    {
      if count == 0 {
        return None;
      }
      var first := 0;
      while first + count <= frameCount
        invariant LowestRun(free, count, first, frameCount) == LowestRun(free, count, 0, frameCount)
        decreases frameCount - first
      {
        if RunFree(free, first, count) {
          MulStep(first, frameCount, pageSize);
          free := free - Run(first, count);
          return Some(first * pageSize);
        }
        first := first + 1;
      }
      return None;
    }

    /** The frames `free(address, count)` returns to the allocator: those of the run that it manages. */
    function Freed(address: usize, count: usize): (r: set<nat>)
      ensures forall f :: f in r <==> address / pageSize <= f < address / pageSize + count && f < frameCount
    {
      Run(address / pageSize, count) * Run(0, frameCount)
    }

    /** `free`: the frames of the run at `address` that this allocator manages become free again. */
    method Free(address: usize, count: usize)
      requires Valid()
      modifies this
      ensures Valid()
      ensures free == old(free) + Freed(address, count)
    {
      free := free + Freed(address, count);
    }

    /** The default `allocate_one`: `allocate(1)`. */
    method AllocateOne() returns (r: Option<usize>)
      requires Valid()
      modifies this
      ensures Valid()
      ensures Allocation(old(free), 1).None? ==> r.None? && free == old(free)
      ensures Allocation(old(free), 1).Some? ==>
        r == Some(Allocation(old(free), 1).value * pageSize)
        && free == old(free) - {Allocation(old(free), 1).value}
    {
      r := Allocate(1);
      if Allocation(old(free), 1).Some? {
        assert Run(Allocation(old(free), 1).value, 1) == {Allocation(old(free), 1).value};
      }
    }

    /** The default `free_one`: `free(address, 1)`. */
    method FreeOne(address: usize)
      requires Valid()
      modifies this
      ensures Valid()
      ensures free == old(free) + Freed(address, 1)
    {
      Free(address, 1);
    }

    /** `usage`: the frames not free are in use, out of all managed frames. */
    function Usage(): (u: PageFrameUsage)
      reads this
      requires Valid()
      ensures u.total.data == frameCount
      ensures u.used.data <= u.total.data && u.Free().data == |free|
    {
      FreeBound(free, frameCount);
      PageFrameUsage(PageFrameCount(frameCount - |free|), PageFrameCount(frameCount))
    }
  }

  /** A set of frame numbers below `n` has at most `n` members. */
  lemma {:induction false} FreeBound(free: set<nat>, n: nat)
    requires forall f :: f in free ==> f < n
    ensures |free| <= n
    decreases n
  {
    if n > 0 {
      FreeBound(free - {n - 1}, n - 1);
    }
  }

  /** A run of `count` frames has `count` members. */
  lemma {:induction false} RunSize(first: nat, count: nat)
    ensures |Run(first, count)| == count
    decreases count
  {
    if count > 0 {
      RunSize(first, count - 1);
      assert Run(first, count) == Run(first, count - 1) + {first + count - 1};
    }
  }

  /**
   * A successful allocation takes `count` frames that were free, lies inside
   * the managed range, and raises the used count by exactly `count`.
   */
  lemma AllocationAccounting(a: FrameAllocator, free: set<nat>, count: nat)
    requires a.Allocation(free, count).Some?
    ensures var first := a.Allocation(free, count).value;
      Run(first, count) <= free
      && first + count <= a.frameCount
      && |free - Run(first, count)| == |free| - count
  {
    var first := a.Allocation(free, count).value;
    assert Run(first, count) <= free;
    RunSize(first, count);
  }

  /** The `&mut T` implementation: every call goes unchanged to the allocator it borrows. */
  class FrameAllocatorRef {
    const target: FrameAllocator

    constructor (target: FrameAllocator)
      ensures this.target == target
    {
      this.target := target;
    }

    method Allocate(count: usize) returns (r: Option<usize>)
      requires target.Valid()
      modifies target
      ensures target.Valid()
      ensures target.Allocation(old(target.free), count).None? ==> r.None? && target.free == old(target.free)
      ensures target.Allocation(old(target.free), count).Some? ==>
        r == Some(target.Allocation(old(target.free), count).value * target.pageSize)
        && target.free == old(target.free) - Run(target.Allocation(old(target.free), count).value, count)
    {
      r := target.Allocate(count);
    }

    method Free(address: usize, count: usize)
      requires target.Valid()
      modifies target
      ensures target.Valid()
      ensures target.free == old(target.free) + target.Freed(address, count)
    {
      target.Free(address, count);
    }

    method AllocateOne() returns (r: Option<usize>)
      requires target.Valid()
      modifies target
      ensures target.Valid()
      ensures target.Allocation(old(target.free), 1).None? ==> r.None? && target.free == old(target.free)
      ensures target.Allocation(old(target.free), 1).Some? ==>
        r == Some(target.Allocation(old(target.free), 1).value * target.pageSize)
        && target.free == old(target.free) - {target.Allocation(old(target.free), 1).value}
    {
      r := target.AllocateOne();
    }

    method FreeOne(address: usize)
      requires target.Valid()
      modifies target
      ensures target.Valid()
      ensures target.free == old(target.free) + target.Freed(address, 1)
    {
      target.FreeOne(address);
    }

    function Usage(): (u: PageFrameUsage)
      reads this, target
      requires target.Valid()
      ensures u == target.Usage()
    {
      target.Usage()
    }
  }

  /**
   * `allocate_page_frames`: the frame at the address the allocator returns,
   * or None when it returns None. The global allocator is the parameter.
   */
  method AllocatePageFrames(allocator: FrameAllocator, count: PageFrameCount) returns (r: Option<PageFrame>)
    requires allocator.Valid()
    modifies allocator
    ensures allocator.Valid()
    ensures allocator.Allocation(old(allocator.free), count.data).None? ==> r.None? && allocator.free == old(allocator.free)
    ensures allocator.Allocation(old(allocator.free), count.data).Some? ==>
      var first := allocator.Allocation(old(allocator.free), count.data).value;
      r == Some(PageFrame(first))
      && allocator.free == old(allocator.free) - Run(first, count.data)
  {
    var address := allocator.Allocate(count.data);
    if address.None? {
      return None;
    }
    MulDiv(allocator.Allocation(old(allocator.free), count.data).value, allocator.pageSize);
    return Some(PageFrame.New(address.value, allocator.pageSize));
  }

  /** `deallocate_page_frames`: frees `count` frames at the frame's address. */
  method DeallocatePageFrames(allocator: FrameAllocator, frame: PageFrame, count: PageFrameCount)
    requires allocator.Valid()
    modifies allocator
    ensures allocator.Valid()
    ensures allocator.free == old(allocator.free) + allocator.Freed(frame.Address(allocator.pageSize), count.data)
  {
    allocator.Free(frame.Address(allocator.pageSize), count.data);
  }

  /** Allocating frames and deallocating the frame returned restores the free frames. */
  lemma AllocateDeallocateRoundTrip(a: FrameAllocator, free: set<nat>, count: nat)
    requires a.frameCount * a.pageSize <= USIZE_LIMIT
    requires forall f :: f in free ==> f < a.frameCount
    requires a.Allocation(free, count).Some?
    ensures var first := a.Allocation(free, count).value;
      first * a.pageSize < USIZE_LIMIT
      && (free - Run(first, count)) + a.Freed(PageFrame(first).Address(a.pageSize), count) == free
  {
    var first := a.Allocation(free, count).value;
    MulStep(first, a.frameCount, a.pageSize);
    MulDiv(first, a.pageSize);
  }
}
