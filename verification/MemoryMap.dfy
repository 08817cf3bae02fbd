/** Reading the boot memory map: which pages `ReadMemoryMap` takes out of circulation. */
module MemoryMap {
  import opened Units
  import opened FrameLedger

  datatype Kind = Usable | Reserved | BootloaderReclaimable | Other(code: nat)
  datatype Entry = Entry(base: nat, length: nat, kind: Kind)

  /** Physical ranges of a memory map end below 2^64, also when rounded up to a page. */
  ghost predicate Physical(e: Entry) {
    e.base + (e.length / PAGE + 1) * PAGE < WORD
  }

  /** The number of pages `ReservePages` is asked for; its `t * 4096` is 32-bit int arithmetic. */
  function EntryPages(e: Entry): nat {
    e.length / PAGE + 1
  }

  /** `GetAllFreeMemory`: all lengths, added modulo 2^64. */
  function Total(entries: seq<Entry>): nat {
    if entries == [] then 0
    else Plus(Total(entries[..|entries| - 1]), entries[|entries| - 1].length)
  }

  function BitmapSize(entries: seq<Entry>): nat {
    Total(entries) / 4096 / 8 + 1
  }

  predicate HoldsBitmap(e: Entry) {
    e.kind.Usable? || e.kind.BootloaderReclaimable?
  }

  /** Base and length of the first longest segment that may hold the bitmap; (0, 0) when none can. */
  function Largest(entries: seq<Entry>): (nat, nat) {
    if entries == [] then (0, 0)
    else
      var best := Largest(entries[..|entries| - 1]);
      var e := entries[|entries| - 1];
      if HoldsBitmap(e) && e.length > best.1 then (e.base, e.length) else best
  }

  /** Entries of every kind count, whatever their order. */
  lemma {:induction false} TotalConcat(a: seq<Entry>, b: seq<Entry>)
    ensures Total(a + b) == (Total(a) + Total(b)) % 0x1_0000_0000_0000_0000
    ensures forall e: Entry :: Total([e]) == e.length % 0x1_0000_0000_0000_0000
  {
    forall e: Entry
      ensures Total([e]) == e.length % WORD
    {
      assert [e][..0] == [];
    }
    if b == [] {
      assert a + b == a;
    } else {
      var n := |b| - 1;
      TotalConcat(a, b[..n]);
      assert (a + b)[..|a + b| - 1] == a + b[..n];
      SumsAgree(Total(a), Total(b[..n]), b[n].length);
    }
  }

  lemma SumsAgree(x: nat, y: nat, z: nat)
    ensures Plus((x + y) % WORD, z) == (x + Plus(y, z)) % WORD
  {
    var q, r := (x + y) / WORD, (y + z) / WORD;
    assert Plus((x + y) % WORD, z) == (x + y + z - WORD * q) % WORD;
    assert x + Plus(y, z) == x + y + z - WORD * r;
    SameRemainder(x + y + z, q);
    SameRemainder(x + y + z, r);
  }

  lemma SameRemainder(x: int, q: int)
    ensures (x - WORD * q) % WORD == x % WORD
  {
    var d := x / WORD;
    assert x - WORD * q == (d - q) * WORD + x % WORD;
  }

  /** The bitmap has a bit for every page that the total amounts to, and no byte more than one past them. */
  lemma BitmapCoversTotal(entries: seq<Entry>)
    ensures forall p: nat :: p * PAGE < Total(entries) ==> p < BitmapSize(entries) * 8
    ensures (BitmapSize(entries) - 1) * 8 * PAGE <= Total(entries)
  {
    hide Total;
  }

  /** Entry k is the first of the longest ones that are free to use, or will be. */
  ghost predicate FirstLongest(entries: seq<Entry>, k: nat) {
    && k < |entries| && entries[k].length > 0
    && (entries[k].kind == Usable || entries[k].kind == BootloaderReclaimable)
    && forall j | 0 <= j < |entries| && (entries[j].kind == Usable || entries[j].kind == BootloaderReclaimable) ::
         if j < k then entries[j].length < entries[k].length else entries[j].length <= entries[k].length
  }

  /** The segment chosen for the bitmap is a longest one, the first of them; there is none only without any memory. */
  lemma {:induction false} LargestIsLongest(entries: seq<Entry>)
    ensures forall e :: e in entries && HoldsBitmap(e) ==> e.length <= Largest(entries).1
    ensures Largest(entries) == (0, 0) ||
      exists e :: e in entries && HoldsBitmap(e) && Largest(entries) == (e.base, e.length)
    ensures Largest(entries).1 > 0 ==>
      exists k: nat :: FirstLongest(entries, k) && Largest(entries) == (entries[k].base, entries[k].length)
    ensures Largest(entries).1 == 0 ==>
      && Largest(entries) == (0, 0)
      && forall e :: e in entries && (e.kind == Usable || e.kind == BootloaderReclaimable) ==> e.length == 0
  {
    if entries != [] {
      var n := |entries| - 1;
      LargestIsLongest(entries[..n]);
      assert entries == entries[..n] + [entries[n]];
      if HoldsBitmap(entries[n]) && entries[n].length > Largest(entries[..n]).1 {
        assert forall j | 0 <= j < n :: entries[j] in entries[..n];
        assert FirstLongest(entries, n);
      } else if Largest(entries).1 > 0 {
        var k: nat :| FirstLongest(entries[..n], k) && Largest(entries) == (entries[k].base, entries[k].length);
        assert FirstLongest(entries, k);
      }
    }
  }

  /** The bitmap after `InitBitmap`: the bit past its end keeps what memory held. */
  function Cleared(s: Frames, size: nat, beyond: bool, memory: nat): Frames {
    s.(bits := seq(size * 8, _ => false) + [beyond], free := memory)
  }

  function ReserveEntries(s: Frames, entries: seq<Entry>): (r: Frames)
    ensures |r.bits| == |s.bits|
  {
    if entries == [] then s
    else
      var e := entries[|entries| - 1];
      var m := ReserveEntries(s, entries[..|entries| - 1]);
      if e.kind.Reserved? then ApplyMany(m, Reserve, e.base, EntryPages(e)) else m
  }

  function Claim(s: Frames, entries: seq<Entry>, buffer: nat, size: nat): (r: Frames)
    ensures |r.bits| == |s.bits|
  {
    var low := ApplyMany(ReserveEntries(s, entries), Reserve, 0, 0x100);
    ApplyMany(low, Lock, buffer, size / 4096 + 1)
  }

  ghost predicate Covered(address: nat, count: nat, p: nat) {
    address / PAGE <= p < address / PAGE + count
  }

  ghost predicate InReserved(entries: seq<Entry>, p: nat) {
    exists e :: e in entries && e.kind.Reserved? && Covered(e.base, EntryPages(e), p)
  }

  lemma {:induction false} ReserveEntriesBits(s: Frames, entries: seq<Entry>, p: nat)
    requires forall e :: e in entries ==> Physical(e)
    requires p < |s.bits|
    ensures ReserveEntries(s, entries).bits[p] <==> s.bits[p] || InReserved(entries, p)
  {
    if entries != [] {
      var n := |entries| - 1;
      var e := entries[n];
      ReserveEntriesBits(s, entries[..n], p);
      assert entries == entries[..n] + [e];
      assert e in entries && Physical(e);
      assert InReserved(entries, p) <==>
        InReserved(entries[..n], p) || (e.kind.Reserved? && Covered(e.base, EntryPages(e), p));
      if e.kind.Reserved? {
        ApplyManyBits(ReserveEntries(s, entries[..n]), Reserve, e.base, EntryPages(e));
      }
    }
  }

  /**
   * After reading the map, the bit of an in-range page is set exactly when the page belongs to the
   * pages counted for a reserved entry, to the first 0x100 pages, or to the bitmap's own pages.
   */
  lemma ClaimedPages(s: Frames, entries: seq<Entry>, buffer: nat, beyond: bool, memory: nat, p: nat)
    requires forall e :: e in entries ==> Physical(e)
    requires buffer + (BitmapSize(entries) / 4096 + 1) * PAGE < WORD
    requires p < BitmapSize(entries) * 8
    ensures Claim(Cleared(s, BitmapSize(entries), beyond, memory), entries, buffer, BitmapSize(entries)).bits[p]
      <==> InReserved(entries, p) || p < 0x100 || Covered(buffer, BitmapSize(entries) / 4096 + 1, p)
  {
    ClaimedBits(Cleared(s, BitmapSize(entries), beyond, memory), entries, buffer, BitmapSize(entries), p);
  }

  /** The pages that reading the map takes: those of reserved entries, the first 0x100, and the bitmap's own. */
  ghost predicate InClaim(entries: seq<Entry>, buffer: nat, size: nat, p: nat) {
    InReserved(entries, p) || p < 0x100 || Covered(buffer, size / 4096 + 1, p)
  }

  lemma ClaimedBits(s: Frames, entries: seq<Entry>, buffer: nat, size: nat, p: nat)
    requires forall e :: e in entries ==> Physical(e)
    requires buffer + (size / 4096 + 1) * PAGE < WORD && p < |s.bits|
    ensures Claim(s, entries, buffer, size).bits[p] <==> s.bits[p] || InClaim(entries, buffer, size, p)
  {
    ReserveEntriesBits(s, entries, p);
    var m := ReserveEntries(s, entries);
    ApplyManyBits(m, Reserve, 0, 0x100);
    ApplyManyBits(ApplyMany(m, Reserve, 0, 0x100), Lock, buffer, size / 4096 + 1);
    hide ReserveEntries, ApplyMany, InReserved;
  }

  /** Page p shares a byte with [base, base + length). */
  ghost predicate Overlaps(base: nat, length: nat, p: nat) {
    base < (p + 1) * PAGE && p * PAGE < base + length
  }

  /**
   * The page count `length / 4096 + 1` reaches every page of the range if and only if the range does
   * not spill into one page more; it always does when `base` is page aligned.
   */
  lemma CountReachesWholeRange(base: nat, length: nat)
    ensures (forall p: nat :: Overlaps(base, length, p) ==> Covered(base, length / PAGE + 1, p))
      <==> (base % PAGE + length - 1) / PAGE <= length / PAGE
    ensures base % PAGE == 0 ==> (base % PAGE + length - 1) / PAGE <= length / PAGE
  {
    if length > 0 {
      var last := (base + length - 1) / PAGE;
      assert last == base / PAGE + (base % PAGE + length - 1) / PAGE;
      assert Overlaps(base, length, last);
      forall p: nat | Overlaps(base, length, p)
        ensures base / PAGE <= p <= last
      {
      }
    }
  }

  /** So it is with the pages that are reserved for an entry. */
  lemma EntryReachesWholeRange(e: Entry)
    ensures (forall p: nat :: Overlaps(e.base, e.length, p) ==> Covered(e.base, EntryPages(e), p))
      <==> (e.base % PAGE + e.length - 1) / PAGE <= e.length / PAGE
    ensures e.base % PAGE == 0 ==> (e.base % PAGE + e.length - 1) / PAGE <= e.length / PAGE
  {
    CountReachesWholeRange(e.base, e.length);
  }

  /**
   * After the map is read, every page in range that shares a byte with a reserved entry is taken, if the entry is page
   * aligned, or does not spill into one page more; no later run of calls hands it out before it was released.
   */
  lemma ReservedBytesAreTaken(s: Frames, entries: seq<Entry>, buffer: nat, beyond: bool, memory: nat, e: Entry, p: nat)
    requires forall x :: x in entries ==> Physical(x)
    requires buffer + (BitmapSize(entries) / 4096 + 1) * PAGE < WORD
    requires e in entries && e.kind == Reserved && Overlaps(e.base, e.length, p) && p < BitmapSize(entries) * 8
    requires e.base % PAGE == 0 || (e.base % PAGE + e.length - 1) / PAGE <= e.length / PAGE
    ensures var start := Claim(Cleared(s, BitmapSize(entries), beyond, memory), entries, buffer, BitmapSize(entries));
      && start.bits[p]
      && forall calls: seq<Call>, k: nat :: k < |calls| && (forall c :: c in calls[..k] ==> !Releases(c, p)) ==>
           !HandsOut(Run(start, calls[..k]), calls[k], p)
  {
    EntryReachesWholeRange(e);
    assert InReserved(entries, p);
    hide *;
    ClaimedPages(s, entries, buffer, beyond, memory, p);
    forall calls: seq<Call>, k: nat | k < |calls| && forall c :: c in calls[..k] ==> !Releases(c, p)
      ensures var start := Claim(Cleared(s, BitmapSize(entries), beyond, memory), entries, buffer, BitmapSize(entries));
        !HandsOut(Run(start, calls[..k]), calls[k], p)
    {
      ClaimedPagesAreNeverHandedOut(s, entries, buffer, beyond, memory, calls, k, p);
    }
  }

  /** An unaligned reserved range whose last page is not reserved. */
  lemma UnalignedRangeLeavesAPage()
    ensures Overlaps(0xfff, 0x1002, 2) && !Covered(0xfff, 0x1002 / PAGE + 1, 2)
  {
  }

  /**
   * From the state `ReadMemoryMap` leaves, no run of calls hands out a page of a reserved entry, of the first
   * 0x100 pages or of the bitmap itself, unless an earlier call of the run freed or unreserved it.
   */
  lemma ClaimedPagesAreNeverHandedOut(s: Frames, entries: seq<Entry>, buffer: nat, beyond: bool, memory: nat,
                                      calls: seq<Call>, k: nat, p: nat)
    requires forall e :: e in entries ==> Physical(e)
    requires buffer + (BitmapSize(entries) / 4096 + 1) * PAGE < WORD
    requires p < BitmapSize(entries) * 8 && k < |calls|
    requires InReserved(entries, p) || p < 0x100 || Covered(buffer, BitmapSize(entries) / 4096 + 1, p)
    requires forall c :: c in calls[..k] ==> !Releases(c, p)
    ensures var start := Claim(Cleared(s, BitmapSize(entries), beyond, memory), entries, buffer, BitmapSize(entries));
      !HandsOut(Run(start, calls[..k]), calls[k], p)
  {
    ClaimedPages(s, entries, buffer, beyond, memory, p);
    RunNeverHandsOut(Claim(Cleared(s, BitmapSize(entries), beyond, memory), entries, buffer, BitmapSize(entries)),
                     calls, k, p);
  }

  /** Reading the map, as a run of reserve and lock calls. */
  function ClaimCalls(entries: seq<Entry>, buffer: nat, size: nat): seq<Call> {
    EntryCalls(entries) + [Pages(Reserve, 0, 0x100), Pages(Lock, buffer, size / 4096 + 1)]
  }

  function EntryCalls(entries: seq<Entry>): seq<Call> {
    if entries == [] then []
    else
      var e := entries[|entries| - 1];
      EntryCalls(entries[..|entries| - 1]) + if e.kind.Reserved? then [Pages(Reserve, e.base, EntryPages(e))] else []
  }

  lemma {:induction false} ReserveEntriesRun(s: Frames, entries: seq<Entry>)
    ensures Run(s, EntryCalls(entries)) == ReserveEntries(s, entries)
  {
    if entries != [] {
      var n := |entries| - 1;
      ReserveEntriesRun(s, entries[..n]);
      var calls := EntryCalls(entries);
      if entries[n].kind.Reserved? {
        assert calls[..|calls| - 1] == EntryCalls(entries[..n]);
      } else {
        assert calls == EntryCalls(entries[..n]);
      }
    }
  }

  lemma ClaimRun(s: Frames, entries: seq<Entry>, buffer: nat, size: nat)
    ensures Run(s, ClaimCalls(entries, buffer, size)) == Claim(s, entries, buffer, size)
  {
    ReserveEntriesRun(s, entries);
    var calls := ClaimCalls(entries, buffer, size);
    var n := |calls|;
    assert calls[..n - 1][..n - 2] == EntryCalls(entries);
    assert calls[..n - 1][n - 2] == Pages(Reserve, 0, 0x100);
  }

  /**
   * The counters that `ReadMemoryMap` leaves agree with its bitmap if and only if the bit just past the bitmap was
   * set already, or the page that it stands for is none of those that reading the map takes.
   */
  lemma ClaimBalanced(s: Frames, entries: seq<Entry>, buffer: nat, beyond: bool)
    requires s.used == 0 && s.reserved == 0
    requires forall e :: e in entries ==> Physical(e)
    requires buffer + (BitmapSize(entries) / 4096 + 1) * PAGE < WORD
    ensures var size := BitmapSize(entries);
      Balanced(Claim(Cleared(s, size, beyond, Total(entries)), entries, buffer, size), Total(entries)) <==>
      beyond || !InClaim(entries, buffer, size, size * 8)
  {
    hide Balanced, Claim, InClaim;
    var size := BitmapSize(entries);
    var s0 := Cleared(s, size, beyond, Total(entries));
    ClearedBalances(s, size, beyond, Total(entries));
    ClaimRun(s0, entries, buffer, size);
    RunDrifts(s0, ClaimCalls(entries, buffer, size), Total(entries));
    ClaimedBits(s0, entries, buffer, size, size * 8);
  }

  lemma ClearedBalances(s: Frames, size: nat, beyond: bool, memory: nat)
    requires s.used == 0 && s.reserved == 0
    ensures Balanced(Cleared(s, size, beyond, memory), memory)
  {
    var s0 := Cleared(s, size, beyond, memory);
    assert s0.bits[..s0.Limit()] == seq(size * 8, _ => false);
    NoneSet(s0.bits[..s0.Limit()]);
  }

  /** A reserved entry just behind 263 pages and a bit: the bitmap gets 33 bytes, and the page past it is taken. */
  lemma ReservedPastTheEndUnbalances()
    ensures var entries := [Entry(0, 0x108000 - 1, Usable), Entry(0x108000, 0, Reserved)];
      BitmapSize(entries) == 33 && InClaim(entries, 0, 33, 33 * 8)
  {
    var entries := [Entry(0, 0x108000 - 1, Usable), Entry(0x108000, 0, Reserved)];
    assert entries[..1] == [Entry(0, 0x108000 - 1, Usable)] && entries[..1][..0] == [];
    assert Total(entries[..1]) == 0x108000 - 1;
    assert entries[1] in entries;
  }
}
