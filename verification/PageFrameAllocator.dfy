/** The page-frame allocator of pageFrameAllocator.cpp, refining the state machine of FrameLedger. */
module PageFrameAllocators {
  import opened Units
  import opened Bitmaps
  import opened FrameLedger
  import opened MemoryMap

  /** Loops with an `int` counter must stay below 2^31, and `t * 4096` below it too. */
  const INT_MAX := 0x7fff_ffff
  const MAX_PAGES := 0x8_0000

  class PageFrameAllocator {
    var PageBitmap: Bitmap
    var PageBitmapIndex: nat
    var FreeMemory: nat
    var UsedMemory: nat
    var ReservedMemory: nat
    var Initialized: bool

    ghost predicate Valid()
      reads this, PageBitmap
    {
      PageBitmap.Valid()
    }

    ghost function State(): (s: Frames)
      reads this, PageBitmap, PageBitmap.Buffer
      requires Valid()
      ensures s.Limit() == PageBitmap.Size * 8
    {
      Frames(PageBitmap.Bits(), PageBitmapIndex, FreeMemory, UsedMemory, ReservedMemory)
    }

    twostate predicate SameBitmap()
      reads this, PageBitmap
    {
      PageBitmap == old(PageBitmap) && PageBitmap.Size == old(PageBitmap.Size) &&
      PageBitmap.Buffer == old(PageBitmap.Buffer)
    }

    constructor (bitmap: Bitmap)
      requires bitmap.Valid()
      ensures Valid() && PageBitmap == bitmap && !Initialized
      ensures State() == Frames(bitmap.Bits(), 0, 0, 0, 0)
    {
      PageBitmap, PageBitmapIndex := bitmap, 0;
      FreeMemory, UsedMemory, ReservedMemory, Initialized := 0, 0, 0, false;
    }

    // ---- One page

    method LockPage(address: nat)
      requires Valid()
      modifies this, PageBitmap.Buffer
      ensures Valid() && SameBitmap() && Initialized == old(Initialized)
      ensures State() == Apply(old(State()), Lock, address)
    {
      hide Unpack, Plus;
      var index := address / 4096;
      var taken := PageBitmap.Get(index);
      if taken {
        return;
      }
      var done := PageBitmap.Set(index, true);
      if done {
        FreeMemory := Plus(FreeMemory, -4096);
        UsedMemory := Plus(UsedMemory, 4096);
      }
    }

    method ReservePage(address: nat)
      requires Valid()
      modifies this, PageBitmap.Buffer
      ensures Valid() && SameBitmap() && Initialized == old(Initialized)
      ensures State() == Apply(old(State()), Reserve, address)
    {
      hide Unpack, Plus;
      var index := address / 4096;
      var taken := PageBitmap.Get(index);
      if taken {
        return;
      }
      var done := PageBitmap.Set(index, true);
      if done {
        FreeMemory := Plus(FreeMemory, -4096);
        ReservedMemory := Plus(ReservedMemory, 4096);
      }
    }

    method FreePage(address: nat)
      requires Valid()
      modifies this, PageBitmap.Buffer
      ensures Valid() && SameBitmap() && State() == Apply(old(State()), Free, address)
    {
      hide Unpack, Plus;
      var index := address / 4096;
      var taken := PageBitmap.Get(index);
      if !taken {
        return;
      }
      var done := PageBitmap.Set(index, false);
      if done {
        FreeMemory := Plus(FreeMemory, 4096);
        UsedMemory := Plus(UsedMemory, -4096);
        if PageBitmapIndex > index {
          PageBitmapIndex := index;
        }
      }
    }

    method UnreservePage(address: nat)
      requires Valid()
      modifies this, PageBitmap.Buffer
      ensures Valid() && SameBitmap() && State() == Apply(old(State()), Unreserve, address)
    {
      hide Unpack, Plus;
      var index := address / 4096;
      var taken := PageBitmap.Get(index);
      if !taken {
        return;
      }
      var done := PageBitmap.Set(index, false);
      if done {
        FreeMemory := Plus(FreeMemory, 4096);
        ReservedMemory := Plus(ReservedMemory, -4096);
        if PageBitmapIndex > index {
          PageBitmapIndex := index;
        }
      }
    }

    // ---- Several pages

    method LockPages(address: nat, pageCount: nat)
      requires Valid() && pageCount <= MAX_PAGES
      modifies this, PageBitmap.Buffer
      ensures Valid() && SameBitmap() && Initialized == old(Initialized)
      ensures State() == ApplyMany(old(State()), Lock, address, pageCount)
    {
      for t := 0 to pageCount
        invariant Valid() && SameBitmap() && Initialized == old(Initialized)
        invariant State() == ApplyMany(old(State()), Lock, address, t)
      {
        LockPage((address + t * 4096) % WORD);
      }
    }

    method ReservePages(address: nat, pageCount: nat)
      requires Valid() && pageCount <= MAX_PAGES
      modifies this, PageBitmap.Buffer
      ensures Valid() && SameBitmap() && Initialized == old(Initialized)
      ensures State() == ApplyMany(old(State()), Reserve, address, pageCount)
    {
      for t := 0 to pageCount
        invariant Valid() && SameBitmap() && Initialized == old(Initialized)
        invariant State() == ApplyMany(old(State()), Reserve, address, t)
      {
        ReservePage((address + t * 4096) % WORD);
      }
    }

    method FreePages(address: nat, pageCount: nat)
      requires Valid() && pageCount <= MAX_PAGES
      modifies this, PageBitmap.Buffer
      ensures Valid() && SameBitmap() && State() == ApplyMany(old(State()), Free, address, pageCount)
    {
      for t := 0 to pageCount
        invariant Valid() && SameBitmap() && State() == ApplyMany(old(State()), Free, address, t)
      {
        FreePage((address + t * 4096) % WORD);
      }
    }

    method UnreservePages(address: nat, pageCount: nat)
      requires Valid() && pageCount <= MAX_PAGES
      modifies this, PageBitmap.Buffer
      ensures Valid() && SameBitmap() && State() == ApplyMany(old(State()), Unreserve, address, pageCount)
    {
      for t := 0 to pageCount
        invariant Valid() && SameBitmap() && State() == ApplyMany(old(State()), Unreserve, address, t)
      {
        UnreservePage((address + t * 4096) % WORD);
      }
    }

    // ---- Requests

    /** The first loop of both request methods: pull the hint down to the first free page below it. */
    method SettleHint()
      requires Valid() && PageBitmapIndex <= INT_MAX
      modifies this`PageBitmapIndex
      ensures Valid() && State() == Settle(old(State()))
    {
      var i := 0;
      while i < PageBitmapIndex
        invariant i <= PageBitmapIndex == old(PageBitmapIndex)
        invariant FirstFree(State().bits, 0, PageBitmapIndex) == FirstFree(State().bits, i, PageBitmapIndex)
      {
        var taken := PageBitmap.Get(i);
        if !taken {
          PageBitmapIndex := i;
          return;
        }
        i := i + 1;
      }
    }

    method RequestPage() returns (address: nat)
      requires Valid() && PageBitmapIndex <= INT_MAX
      modifies this, PageBitmap.Buffer
      ensures Valid() && SameBitmap() && (State(), address) == Request(old(State()))
    {
      SettleHint();
      var x := PageBitmapIndex;
      ghost var limit := State().Limit();
      while x < PageBitmap.Size * 8
        invariant Valid() && SameBitmap() && State() == Settle(old(State()))
        invariant PageBitmapIndex <= x
        invariant x <= limit ==> FirstFree(State().bits, PageBitmapIndex, limit) == FirstFree(State().bits, x, limit)
        invariant x > limit ==> x == PageBitmapIndex
      {
        var taken := PageBitmap.Get(x);
        if !taken {
          LockPage(x * 4096);
          return x * 4096;
        }
        x := x + 1;
      }
      return 0;
    }

    /** The inner loop of `RequestPages`: do pages x to x + amount - 1 all read as free? */
    method RunIsFree(x: nat, amount: nat) returns (free: bool)
      requires Valid()
      ensures free == RunReadsFree(State().bits, x, amount)
    {
      for i := 0 to amount
        invariant RunReadsFree(State().bits, x, i)
      {
        var taken := PageBitmap.Get(x + i);
        if taken {
          assert Taken(State().bits, x + i);
          return false;
        }
      }
      return true;
    }

    /** The outer loop of `RequestPages`; past the end of the bitmap when no run is found. */
    method SearchRun(from: nat, amount: nat) returns (x: nat)
      requires Valid()
      ensures x < PageBitmap.Size * 8 <==> FindRun(State().bits, from, amount) < PageBitmap.Size * 8
      ensures x < PageBitmap.Size * 8 ==> x == FindRun(State().bits, from, amount)
    {
      hide *;
      BitsAreState();
      ghost var bits := State().bits;
      x := from;
      while x < PageBitmap.Size * 8
        invariant FindRun(bits, from, amount) == FindRun(bits, x, amount)
      {
        FindRunStep(bits, x, amount);
        var taken := PageBitmap.Get(x);
        if !taken {
          var free := RunIsFree(x, amount);
          if free {
            return;
          }
          x := x + amount;
        }
        x := x + 1;
      }
      FindRunEnds(bits, x, amount);
    }

    lemma BitsAreState()
      requires Valid()
      ensures PageBitmap.Valid() && State().bits == PageBitmap.Bits() && |State().bits| == PageBitmap.Size * 8 + 1
    {
    }

    static lemma FindRunEnds(bits: seq<bool>, x: nat, amount: nat)
      requires |bits| > 0 && x >= |bits| - 1
      ensures FindRun(bits, x, amount) == |bits|
    {
    }

    method RequestPages(amount: nat) returns (address: nat)
      requires Valid() && PageBitmapIndex <= INT_MAX && amount <= MAX_PAGES
      modifies this, PageBitmap.Buffer
      ensures Valid() && SameBitmap() && (State(), address) == RequestRun(old(State()), amount)
    {
      SettleHint();
      var x := SearchRun(PageBitmapIndex, amount);
      if x < PageBitmap.Size * 8 {
        LockPages(x * 4096, amount);
        return x * 4096;
      }
      return 0;
    }

    // ---- Boot

    method InitBitmap(bitmapSize: nat, buffer: array<bv8>)
      requires Valid() && bitmapSize < buffer.Length && bitmapSize <= INT_MAX
      modifies PageBitmap, buffer
      ensures Valid() && PageBitmap.Size == bitmapSize && PageBitmap.Buffer == buffer
      ensures PageBitmap.Bits() == seq(bitmapSize * 8, _ => false) + [ByteBit(old(buffer[bitmapSize]), 0)]
    {
      PageBitmap.Size := bitmapSize;
      PageBitmap.Buffer := buffer;
      for i := 0 to bitmapSize
        invariant PageBitmap.Size == bitmapSize && PageBitmap.Buffer == buffer
        invariant forall k :: 0 <= k < i ==> buffer[k] == 0
        invariant forall k :: i <= k < buffer.Length ==> buffer[k] == old(buffer[k])
      {
        buffer[i] := 0;
      }
      forall k | 0 <= k < bitmapSize * 8
        ensures !PageBitmap.Bits()[k]
      {
        assert buffer[..][k / 8] == 0;
        ZeroByte(k % 8);
      }
      assert PageBitmap.Bits()[bitmapSize * 8] == BitAt(buffer[..], bitmapSize * 8);
    }

    static lemma ZeroByte(bitIndex: nat)
      ensures !ByteBit(0, bitIndex)
    {
    }

    /** `memory` is what lies at the base of the segment chosen for the bitmap. */
    method ReadMemoryMap(entries: seq<Entry>, memory: array<bv8>)
      requires Valid() && |entries| <= INT_MAX
      requires !Initialized ==> BitmapSize(entries) < memory.Length && BitmapSize(entries) <= INT_MAX
      requires forall e :: e in entries && e.kind.Reserved? ==> EntryPages(e) <= MAX_PAGES
      modifies this, PageBitmap, memory, PageBitmap.Buffer
      ensures Valid() && Initialized && PageBitmap == old(PageBitmap)
      ensures old(Initialized) ==> State() == old(State()) && SameBitmap()
      ensures !old(Initialized) ==> PageBitmap.Buffer == memory
      ensures !old(Initialized) ==>
        State() == Claim(Cleared(old(State()), BitmapSize(entries), old(ByteBit(memory[BitmapSize(entries)], 0)),
                                 Total(entries)), entries, Largest(entries).0, BitmapSize(entries))
    {
      if Initialized {
        return;
      }
      Initialized := true;
      var segment, _ := ChooseSegment(entries);
      var memorySize := GetAllFreeMemory(entries);
      FreeMemory := memorySize;
      var bitmapSize := memorySize / 4096 / 8 + 1;
      ClearAndClaim(entries, memory, bitmapSize, segment);
    }

    /** The rest of it, once the memory size and the segment are known. */
    method ClearAndClaim(entries: seq<Entry>, memory: array<bv8>, bitmapSize: nat, segment: nat)
      requires Valid() && bitmapSize < memory.Length && bitmapSize <= INT_MAX
      requires forall e :: e in entries && e.kind.Reserved? ==> EntryPages(e) <= MAX_PAGES
      modifies this, PageBitmap, memory, PageBitmap.Buffer
      ensures Valid() && Initialized == old(Initialized) && PageBitmap == old(PageBitmap)
      ensures PageBitmap.Buffer == memory && PageBitmap.Size == bitmapSize
      ensures State() == Claim(Cleared(old(State()), bitmapSize, old(ByteBit(memory[bitmapSize], 0)), old(FreeMemory)),
                               entries, segment, bitmapSize)
    {
      ghost var before, beyond, size := State(), ByteBit(memory[bitmapSize], 0), FreeMemory;
      assert before.free == size;
      hide *;
      InitBitmap(bitmapSize, memory);
      ClearedIs(before, State(), bitmapSize, beyond, size);
      ClaimPages(entries, segment);
    }

    static lemma ClearedIs(s: Frames, r: Frames, size: nat, beyond: bool, memory: nat)
      requires r.bits == seq(size * 8, _ => false) + [beyond] && r == s.(bits := r.bits) && s.free == memory
      ensures r == Cleared(s, size, beyond, memory)
    {
    }

    method ClaimPages(entries: seq<Entry>, segment: nat)
      requires Valid() && PageBitmap.Size <= INT_MAX
      requires forall e :: e in entries && e.kind.Reserved? ==> EntryPages(e) <= MAX_PAGES
      modifies this, PageBitmap.Buffer
      ensures Valid() && SameBitmap() && Initialized == old(Initialized)
      ensures State() == Claim(old(State()), entries, segment, PageBitmap.Size)
    {
      hide State, Claim, ReserveEntries, ApplyMany;
      BitmapPages(PageBitmap.Size);
      ClaimIs(State(), entries, segment, PageBitmap.Size);
      ReserveListed(entries);
      ReservePages(0, 0x100);
      LockPages(segment, PageBitmap.Size / 4096 + 1);
    }

    static lemma BitmapPages(size: nat)
      requires size <= INT_MAX
      ensures size / 4096 + 1 <= MAX_PAGES && 0x100 <= MAX_PAGES
    {
    }

    static lemma ClaimIs(s: Frames, entries: seq<Entry>, buffer: nat, size: nat)
      ensures Claim(s, entries, buffer, size)
           == ApplyMany(ApplyMany(ReserveEntries(s, entries), Reserve, 0, 0x100), Lock, buffer, size / 4096 + 1)
    {
    }

    static method ChooseSegment(entries: seq<Entry>) returns (segment: nat, segmentSize: nat)
      ensures (segment, segmentSize) == Largest(entries)
    {
      segment, segmentSize := 0, 0;
      for i := 0 to |entries|
        invariant (segment, segmentSize) == Largest(entries[..i])
      {
        assert entries[..i + 1][..i] == entries[..i];
        if entries[i].kind.Usable? || entries[i].kind.BootloaderReclaimable? {
          if entries[i].length > segmentSize {
            segment, segmentSize := entries[i].base, entries[i].length;
          }
        }
      }
      assert entries[..|entries|] == entries;
    }

    method ReserveListed(entries: seq<Entry>)
      requires Valid() && forall e :: e in entries && e.kind.Reserved? ==> EntryPages(e) <= MAX_PAGES
      modifies this, PageBitmap.Buffer
      ensures Valid() && SameBitmap() && Initialized == old(Initialized)
      ensures State() == ReserveEntries(old(State()), entries)
    {
      for i := 0 to |entries|
        invariant Valid() && SameBitmap() && Initialized == old(Initialized)
        invariant State() == ReserveEntries(old(State()), entries[..i])
      {
        assert entries[..i + 1][..i] == entries[..i];
        if entries[i].kind.Reserved? {
          ReservePages(entries[i].base, entries[i].length / 0x1000 + 1);
        }
      }
      assert entries[..|entries|] == entries;
    }

    static method GetAllFreeMemory(entries: seq<Entry>) returns (mems: nat)
      ensures mems == Total(entries)
    {
      mems := 0;
      for i := 0 to |entries|
        invariant mems == Total(entries[..i])
      {
        assert entries[..i + 1][..i] == entries[..i];
        mems := Plus(mems, entries[i].length);
      }
      assert entries[..|entries|] == entries;
    }
  }
}
