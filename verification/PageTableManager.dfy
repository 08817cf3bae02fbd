/** PageTableManager.cpp over the frame allocator and physical memory, and the boot loops of kernel.cpp. */
module PageTableManagers {
  import opened FrameLedger
  import opened Paging
  import opened PageTree
  import opened MapMemory
  import opened AddressSpace
  import opened PageFrameAllocators

  class PageTableManager {
    var PML4: nat
    // GlobalAllocator, and physical memory as an array of 4 KiB frames.
    var Allocator: PageFrameAllocator
    var Memory: array<Table>

    /** Physical memory backs every page of the bitmap. */
    ghost predicate Backed()
      reads this, Allocator, Allocator.PageBitmap
    {
      Allocator.Valid() && Allocator.PageBitmapIndex <= INT_MAX &&
      0 < Memory.Length && Allocator.PageBitmap.Size * 8 <= Memory.Length &&
      Memory as object != Allocator.PageBitmap.Buffer as object
    }

    ghost function State(): (y: System)
      reads this, Allocator, Allocator.PageBitmap, Allocator.PageBitmap.Buffer, Memory
      requires Backed()
      ensures Sized(y)
    {
      System(Allocator.State(), Memory[..])
    }

    ghost predicate Valid()
      reads this, Allocator, Allocator.PageBitmap, Allocator.PageBitmap.Buffer, Memory
    {
      Backed() && Good(State(), PML4 / 4096)
    }

    twostate predicate SameParts()
      reads this, Allocator, Allocator.PageBitmap
    {
      PML4 == old(PML4) && Allocator == old(Allocator) && Memory == old(Memory) && Allocator.SameBitmap()
    }

    constructor (pml4: nat, allocator: PageFrameAllocator, memory: array<Table>)
      ensures PML4 == pml4 && Allocator == allocator && Memory == memory
    {
      PML4, Allocator, Memory := pml4, allocator, memory;
    }

    /** `PDE` read from a table, given an address and the flags Present and ReadWrite, and stored back. */
    method Link(table: nat, index: nat, value: nat, address: nat)
      requires table / 4096 < Memory.Length && index < ENTRIES
      modifies Memory
      ensures Memory[..] == LinkedInto(old(Memory[..]), table / 4096, index, Linked(value, address))
    {
      var pde := new PageDirectoryEntry(value);
      pde.SetAddress(address);
      pde.SetFlag(Present, true);
      pde.SetFlag(ReadWrite, true);
      Memory[table / 4096] := Memory[table / 4096][index := pde.Value];
    }

    /** memset(table, 0, 0x1000) */
    method Clear(table: nat)
      requires table / 4096 < Memory.Length
      modifies Memory
      ensures Memory[..] == old(Memory[..])[table / 4096 := ZeroTable()]
    {
      Memory[table / 4096] := ZeroTable();
    }

    /** One of the three steps of the walk: read the entry, and create the table when it is not present. */
    method NextTable(table: nat, index: nat) returns (next: nat)
      requires Backed() && table / 4096 < Memory.Length && index < ENTRIES
      modifies Allocator, Allocator.PageBitmap.Buffer, Memory
      ensures Backed() && SameParts() && next % 4096 == 0
      ensures (State(), next / 4096) == Next(old(State()), table / 4096, index)
    {
      var pde := new PageDirectoryEntry(Memory[table / 4096][index]);
      var present := pde.GetFlag(Present);
      if !present {
        RequestInRange(Allocator.State());
        ghost var before := Memory[..];
        next := Allocator.RequestPage();
        Clear(next);
        Link(table, index, pde.Value, next / 4096);
        assert Memory[..] == Grown(before, table / 4096, index, next / 4096);
      } else {
        next := pde.GetAddress();
        next := next * 4096;
      }
    }

    method MapMemory(virtualMemory: nat, physicalMemory: nat)
      requires Valid()
      modifies Allocator, Allocator.PageBitmap.Buffer, Memory
      ensures Backed() && SameParts()
      ensures State() == Map(old(State()), PML4 / 4096, Path(virtualMemory), physicalMemory / 4096)
      ensures Valid() <==> old(Enough(State(), PML4 / 4096, virtualMemory))
    {
      MapKeepsTreeExactly(State(), PML4 / 4096, virtualMemory, physicalMemory / 4096);
      hide Good;
      hide Enough;
      var indexer := new PageMapIndexer(virtualMemory);
      WritePage(indexer, virtualMemory, physicalMemory);
    }

    method WritePage(indexer: PageMapIndexer, ghost virtualMemory: nat, physicalMemory: nat)
      requires Valid() && [indexer.PDP_i, indexer.PD_i, indexer.PT_i, indexer.P_i] == Path(virtualMemory)
      modifies Allocator, Allocator.PageBitmap.Buffer, Memory
      ensures Backed() && SameParts()
      ensures State() == Map(old(State()), PML4 / 4096, Path(virtualMemory), physicalMemory / 4096)
    {
      TableInRange(State(), PML4 / 4096, virtualMemory, 3);
      MapIs(State(), PML4 / 4096, Path(virtualMemory), physicalMemory / 4096);
      assert indexer.P_i == Path(virtualMemory)[3];
      hide Path, Descend, Good, Linked, LinkedInto, Map, Next;
      var pt := LastTable(indexer, virtualMemory);
      Link(pt, indexer.P_i, Memory[pt / 4096][indexer.P_i], physicalMemory / 4096);
    }

    /** The walk from PML4 through PDP and PD to PT. */
    method LastTable(indexer: PageMapIndexer, ghost virtualMemory: nat) returns (pt: nat)
      requires Valid() && [indexer.PDP_i, indexer.PD_i, indexer.PT_i, indexer.P_i] == Path(virtualMemory)
      modifies Allocator, Allocator.PageBitmap.Buffer, Memory
      ensures Backed() && SameParts()
      ensures (State(), pt / 4096) == Descend(old(State()), PML4 / 4096, Path(virtualMemory), 3)
    {
      ghost var start, root, path := State(), PML4 / 4096, Path(virtualMemory);
      assert path[0] == indexer.PDP_i && path[1] == indexer.PD_i && path[2] == indexer.PT_i;
      hide Path;
      TableInRange(start, root, virtualMemory, 0);
      TableInRange(start, root, virtualMemory, 1);
      TableInRange(start, root, virtualMemory, 2);
      hide Good;
      hide Next;
      var pdp := NextTable(PML4, indexer.PDP_i);
      assert (State(), pdp / 4096) == Descend(start, root, path, 1);
      var pd := NextTable(pdp, indexer.PD_i);
      assert (State(), pd / 4096) == Descend(start, root, path, 2);
      pt := NextTable(pd, indexer.PT_i);
    }
  }

  /** Starting from a proper tree the walk stays in memory, also when frame 0 becomes a table. */
  lemma TableInRange(y: System, root: nat, v: nat, n: nat)
    requires Good(y, root) && n <= 3
    ensures Descend(y, root, Path(v), n).1 < |y.memory|
  {
    var tables :| Proper(y.memory, tables, root, y.frames.bits);
    DescendInRange(y, tables, root, Path(v), n);
  }
}
