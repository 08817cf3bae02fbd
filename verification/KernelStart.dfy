/** `KernelStart` from the memory map to the last mapping (kernel.cpp, lines 50 to 80). */
module KernelStarts {
  import opened Units
  import opened FrameLedger
  import opened Paging
  import opened PageTree
  import opened MapMemory
  import opened AddressSpace
  import opened PageFrameAllocators
  import opened PageTableManagers
  import opened KernelBoot
  import Map = MemoryMap

  /** The frames after `ReadMemoryMap` and the call that locks `pages` pages from address `kernel` on. */
  function BootFrames(s: Frames, entries: seq<Map.Entry>, buffer: nat, beyond: bool, kernel: nat, pages: nat): Frames {
    var size := Map.BitmapSize(entries);
    ApplyMany(Map.Claim(Map.Cleared(s, size, beyond, Map.Total(entries)), entries, buffer, size), Lock, kernel, pages)
  }

  /** The outermost table, requested and cleared. */
  function WithRoot(frames: Frames, memory: seq<Table>): (r: (System, nat))
    requires 0 < |memory| && frames.Limit() <= |memory|
    ensures Sized(r.0) && |r.0.frames.bits| == |frames.bits|
  {
    RequestInRange(frames);
    var root := Request(frames).1 / 4096;
    (System(Request(frames).0, memory[root := ZeroTable()]), root)
  }

  lemma {:induction false} LocksStay(s: Frames, address: nat, count: nat, p: nat)
    requires p < |s.bits| && s.bits[p]
    ensures ApplyMany(s, Lock, address, count).bits[p]
  {
    if count > 0 {
      LocksStay(s, address, count - 1, p);
    }
  }

  /** At boot the first 0x100 pages are taken, as far as the bitmap reaches. */
  lemma LowPagesTaken(s: Frames, entries: seq<Map.Entry>, buffer: nat, beyond: bool, kernel: nat, pages: nat, p: nat)
    requires forall e :: e in entries ==> Map.Physical(e)
    requires buffer + (Map.BitmapSize(entries) / 4096 + 1) * PAGE < WORD
    requires p < 0x100 && p < BootFrames(s, entries, buffer, beyond, kernel, pages).Limit()
    ensures BootFrames(s, entries, buffer, beyond, kernel, pages).bits[p]
  {
    var size := Map.BitmapSize(entries);
    var claimed := Map.Claim(Map.Cleared(s, size, beyond, Map.Total(entries)), entries, buffer, size);
    Map.ClaimedPages(s, entries, buffer, beyond, Map.Total(entries), p);
    hide Map.Claim;
    LocksStay(claimed, kernel, pages, p);
  }

  /** `_KernelStart`, the link address of the kernel: not a physical one. */
  const KERNEL: nat := 0xffff_ffff_8000_0000

  /** Locking pages from there on locks nothing, since all of them lie above every bitmap. */
  lemma {:induction false} KernelLockIsEmpty(s: Frames, pages: nat)
    requires |s.bits| <= ADDRESSES && pages <= MAX_PAGES
    ensures ApplyMany(s, Lock, 0xffff_ffff_8000_0000, pages) == s
  {
    if pages > 0 {
      KernelLockIsEmpty(s, pages - 1);
      assert Visit(KERNEL, pages - 1) == KERNEL + (pages - 1) * PAGE;
    }
  }

  /** So the pages taken at boot are those of the memory map alone; the kernel's own are not among them. */
  lemma BootBitsExactly(s: Frames, entries: seq<Map.Entry>, buffer: nat, beyond: bool, pages: nat, p: nat)
    requires forall e :: e in entries ==> Map.Physical(e)
    requires buffer + (Map.BitmapSize(entries) / 4096 + 1) * PAGE < WORD
    requires Map.BitmapSize(entries) * 8 < ADDRESSES && pages <= MAX_PAGES && p < Map.BitmapSize(entries) * 8
    ensures BootFrames(s, entries, buffer, beyond, KERNEL, pages).bits[p] <==>
      Map.InClaim(entries, buffer, Map.BitmapSize(entries), p)
  {
    var size := Map.BitmapSize(entries);
    Map.ClaimedPages(s, entries, buffer, beyond, Map.Total(entries), p);
    assert |Map.Cleared(s, size, beyond, Map.Total(entries)).bits| == size * 8 + 1;
    hide Map.Claim, Map.InReserved, Map.Cleared;
    KernelLockIsEmpty(Map.Claim(Map.Cleared(s, size, beyond, Map.Total(entries)), entries, buffer, size), pages);
  }

  /** A kernel at 1 MiB behind a usable megabyte: its own first page becomes the outermost table. */
  lemma KernelPageHandedOut(s: Frames, beyond: bool, pages: nat)
    requires pages <= MAX_PAGES
    ensures var entries := [Map.Entry(0, 0x10_0000, Map.Usable), Map.Entry(0x10_0000, 0x10_0000, Map.Other(0x1001))];
      Request(BootFrames(s, entries, 0, beyond, KERNEL, pages)).1 == 0x10_0000
  {
    var entries := [Map.Entry(0, 0x10_0000, Map.Usable), Map.Entry(0x10_0000, 0x10_0000, Map.Other(0x1001))];
    assert entries[..1] == [entries[0]] && entries[..1][..0] == [];
    assert Map.Total(entries[..1]) == 0x10_0000;
    assert Map.BitmapSize(entries) == 65;
    var frames := BootFrames(s, entries, 0, beyond, KERNEL, pages);
    assert frames.Limit() == 520;
    hide BootFrames, Request;
    forall p: nat | p <= 0x100
      ensures frames.bits[p] <==> p < 0x100
    {
      BootBitsExactly(s, entries, 0, beyond, pages, p);
    }
    assert LowestFree(frames.bits, 0x100);
    RequestTakesLowest(frames);
  }

  /** Where the firmware keeps the megabytes below 16 MiB, the outermost table lies where the heap's window begins. */
  lemma RootInHeapWindow(s: Frames, beyond: bool, pages: nat)
    requires pages <= MAX_PAGES
    ensures var entries := [Map.Entry(0, 0x100_0000, Map.Usable), Map.Entry(0x10_0000, 0xef_f000, Map.Reserved)];
      Request(BootFrames(s, entries, 0, beyond, KERNEL, pages)).1 == 0x100_0000
  {
    var entries := [Map.Entry(0, 0x100_0000, Map.Usable), Map.Entry(0x10_0000, 0xef_f000, Map.Reserved)];
    assert entries[..1] == [entries[0]] && entries[..1][..0] == [];
    assert Map.Total(entries[..1]) == 0x100_0000;
    assert Map.BitmapSize(entries) == 0x3e0;
    var frames := BootFrames(s, entries, 0, beyond, KERNEL, pages);
    assert frames.Limit() == 0x1f00;
    assert entries[1] in entries && Map.EntryPages(entries[1]) == 0xf00;
    hide BootFrames, Request;
    forall p: nat | p <= 0x1000
      ensures frames.bits[p] <==> p < 0x1000
    {
      BootBitsExactly(s, entries, 0, beyond, pages, p);
      assert Map.Covered(entries[1].base, 0xf00, p) <==> 0x100 <= p < 0x1000;
    }
    assert LowestFree(frames.bits, 0x1000);
    RequestTakesLowest(frames);
  }

  /**
   * The kernel's outermost table is a proper tree that maps nothing if and only if a page is free when it asks for
   * one; it lies above the first 0x100 pages then, and else is page 0.
   */
  lemma RootExactly(s: Frames, entries: seq<Map.Entry>, buffer: nat, beyond: bool, kernel: nat, pages: nat,
                    memory: seq<Table>)
    requires forall e :: e in entries ==> Map.Physical(e)
    requires buffer + (Map.BitmapSize(entries) / 4096 + 1) * PAGE < WORD
    requires |BootFrames(s, entries, buffer, beyond, kernel, pages).bits| <= ADDRESSES
    requires BootFrames(s, entries, buffer, beyond, kernel, pages).Limit() <= |memory|
    ensures BootFrames(s, entries, buffer, beyond, kernel, pages).Limit() > 0
    ensures var frames := BootFrames(s, entries, buffer, beyond, kernel, pages);
      var (y, root) := WithRoot(frames, memory);
      if FreeCount(frames) > 0
      then
        && 0x100 <= root < y.frames.Limit() && y.frames.bits[root] && y.frames.bits[0] && y.memory[root] == ZeroTable()
        && FreeCount(y.frames) == FreeCount(frames) - 1 && Good(y, root) && Refines(y, root, map[])
      else root == 0 && !Good(y, root)
  {
    var frames := BootFrames(s, entries, buffer, beyond, kernel, pages);
    assert frames.Limit() == Map.BitmapSize(entries) * 8;
    LowPagesTaken(s, entries, buffer, beyond, kernel, pages, 0);
    hide BootFrames;
    RequestUsesOne(frames);
    var (y, root) := WithRoot(frames, memory);
    if FreeCount(frames) > 0 {
      if root < 0x100 {
        LowPagesTaken(s, entries, buffer, beyond, kernel, pages, root);
      }
      hide Request, FreeCount;
      EmptyTree(y, root);
    } else {
      assert !ProperTree(y.memory, 0, y.frames.bits);
    }
  }

  /**
   * The whole boot, from the memory map on: the mapping loops keep the tree proper throughout if and only if the
   * pages then free are enough for the outermost table and the distinct tables below it. If they are, the protected
   * ranges lead to the kernel; and if memory ends by 2^47 bytes, every byte of it is reached at its own address, and if
   * its page is whole at the higher-half one, unless a protected range names that page.
   */
  lemma BootExactly(s: Frames, entries: seq<Map.Entry>, buffer: nat, beyond: bool, kernel: nat, pages: nat,
                    memory: seq<Table>, pmrs: seq<Pmr>, physicalBase: nat, virtualBase: nat, a: nat)
    requires forall e :: e in entries ==> Map.Physical(e)
    requires buffer + (Map.BitmapSize(entries) / 4096 + 1) * PAGE < WORD
    requires |BootFrames(s, entries, buffer, beyond, kernel, pages).bits| <= ADDRESSES
    requires BootFrames(s, entries, buffer, beyond, kernel, pages).Limit() <= |memory| && 0 < |memory|
    ensures var frames := BootFrames(s, entries, buffer, beyond, kernel, pages);
      var (y, root) := WithRoot(frames, memory);
      var acts := BootActs(Map.Total(entries), pmrs, physicalBase, virtualBase);
      && (Good(y, root) && Fits(y, root, acts) <==> 1 + |AllPrefixes(acts)| <= FreeCount(frames))
      && (1 + |AllPrefixes(acts)| <= FreeCount(frames) ==>
          RangesLead(RunActs(y, root, acts).memory, root, pmrs, physicalBase, virtualBase))
      && (1 + |AllPrefixes(acts)| <= FreeCount(frames) && a < Map.Total(entries) <= 0x8000_0000_0000 ==>
          BootReaches(RunActs(y, root, acts).memory, root, Map.Total(entries),
                      PmrActs(pmrs, physicalBase, virtualBase), a))
  {
    hide *;
    RootExactly(s, entries, buffer, beyond, kernel, pages, memory);
    var frames := BootFrames(s, entries, buffer, beyond, kernel, pages);
    var (y, root) := WithRoot(frames, memory);
    var total := Map.Total(entries);
    var acts := BootActs(total, pmrs, physicalBase, virtualBase);
    if FreeCount(frames) > 0 {
      BootFitsExactly(y, root, total, pmrs, physicalBase, virtualBase);
      if Fits(y, root, acts) {
        BootMapsRanges(y, root, total, pmrs, physicalBase, virtualBase);
        if a < total <= 0x8000_0000_0000 {
          BootTranslates(y, root, total, pmrs, physicalBase, virtualBase, a);
          RunKeepsSize(y, root, acts);
          ReachesIs(RunActs(y, root, acts).memory, root, total, PmrActs(pmrs, physicalBase, virtualBase), a);
        }
      }
    }
  }

  /** Address a, and its image in the higher half, lead to its page, except where a protected range took over. */
  ghost predicate BootReaches(memory: seq<Table>, root: nat, total: nat, pmrs: seq<Act>, a: nat)
    requires root < |memory|
  {
    && (!Touches(pmrs, a / 4096) ==> Translate(memory, root, a) == Mapped(a / 4096, true))
    && (a / 4096 < total / 4096 && !Touches(pmrs, HIGHER_PAGE + a / 4096) ==>
        Translate(memory, root, a + HIGHER_HALF) == Mapped(a / 4096, true))
  }

  lemma RunKeepsSize(y: System, root: nat, acts: seq<Act>)
    requires Sized(y)
    ensures |RunActs(y, root, acts).memory| == |y.memory| && y.frames.Limit() <= |y.memory|
  {
    hide RunActs;
  }

  lemma ReachesIs(memory: seq<Table>, root: nat, total: nat, pmrs: seq<Act>, a: nat)
    requires root < |memory|
    requires !Touches(pmrs, a / 4096) ==> Translate(memory, root, a) == Mapped(a / 4096, true)
    requires a / 4096 < total / 4096 && !Touches(pmrs, HIGHER_PAGE + a / 4096) ==>
      Translate(memory, root, a + HIGHER_HALF) == Mapped(a / 4096, true)
    ensures BootReaches(memory, root, total, pmrs, a)
  {
    hide Touches, Translate;
  }

  /** Lines 57 to 80: a page for the outermost table, cleared, and the mapping loops. */
  method StartPaging(allocator: PageFrameAllocator, physical: array<Table>, memory: nat, pmrs: seq<Pmr>,
                     physicalBase: nat, virtualBase: nat)
    returns (manager: PageTableManager)
    requires allocator.Valid() && allocator.PageBitmapIndex <= INT_MAX && 0 < physical.Length
    requires allocator.PageBitmap.Size * 8 <= physical.Length
    requires physical as object != allocator.PageBitmap.Buffer as object
    requires FitsWord(0, memory) && forall p :: p in pmrs ==> FitsWord(p.base, p.length)
    requires var (y, root) := WithRoot(allocator.State(), physical[..]);
      Good(y, root) && Fits(y, root, BootActs(memory, pmrs, physicalBase, virtualBase))
    modifies allocator, allocator.PageBitmap.Buffer, physical
    ensures fresh(manager) && manager.Valid() && manager.Allocator == allocator && manager.Memory == physical
    ensures var (y, root) := WithRoot(old(allocator.State()), old(physical[..]));
      && manager.PML4 / 4096 == root
      && manager.State() == RunActs(y, root, BootActs(memory, pmrs, physicalBase, virtualBase))
    ensures RangesLead(physical[..], manager.PML4 / 4096, pmrs, physicalBase, virtualBase)
  {
    hide Good, Fits, BootActs, RunActs, Request, ZeroTable, FitsWord;
    RequestInRange(allocator.State());
    ghost var start := WithRoot(allocator.State(), physical[..]);
    var pml4 := allocator.RequestPage();
    physical[pml4 / 4096] := ZeroTable();
    manager := new PageTableManager(pml4, allocator, physical);
    assert manager.Valid() && (manager.State(), manager.PML4 / 4096) == start;
    hide *;
    MapAtBoot(manager, memory, pmrs, physicalBase, virtualBase);
  }
}
