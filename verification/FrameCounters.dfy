/** What each counter of the page-frame allocator stands for: which calls move which, and by how many pages. */
module FrameCounters {
  import opened Units
  import opened FrameLedger
  import opened MemoryMap

  /** The counters are 64-bit words. */
  predicate Words(s: Frames) {
    s.free < WORD && s.used < WORD && s.reserved < WORD
  }

  /** k pages more are taken: `free` loses them, and one of the other counters gains them. */
  predicate Moves(s: Frames, r: Frames, reserves: bool, k: int) {
    && r.free == Plus(s.free, -PAGE * k)
    && r.reserved == (if reserves then Plus(s.reserved, PAGE * k) else s.reserved)
    && r.used == (if reserves then s.used else Plus(s.used, PAGE * k))
  }

  lemma PlusTwice(x: nat, a: int, b: int)
    ensures Plus(Plus(x, a), b) == Plus(x, a + b)
    ensures x < WORD ==> Plus(x, 0) == x
  {
    var q := (x + a) / WORD;
    assert Plus(x, a) == x + a - WORD * q;
    SameRemainder(x + a + b, q);
  }

  lemma MovesTwice(s: Frames, m: Frames, r: Frames, reserves: bool, j: int, k: int)
    requires Moves(s, m, reserves, j) && Moves(m, r, reserves, k)
    ensures Moves(s, r, reserves, j + k)
  {
    PlusTwice(s.free, -PAGE * j, -PAGE * k);
    PlusTwice(s.used, PAGE * j, PAGE * k);
    PlusTwice(s.reserved, PAGE * j, PAGE * k);
    hide Plus;
  }

  lemma MovesNone(s: Frames, r: Frames, reserves: bool)
    requires Words(s) && r.free == s.free && r.used == s.used && r.reserved == s.reserved
    ensures Moves(s, r, reserves, 0)
  {
  }

  /** One page: `Lock` and `Free` count it as used, `Reserve` and `Unreserve` as reserved. */
  lemma ApplyCounters(s: Frames, op: PageOp, address: nat)
    requires Words(s)
    ensures var r := Apply(s, op, address);
      Words(r) && Moves(s, r, op == Reserve || op == Unreserve, Count(r.bits) - Count(s.bits))
    ensures Apply(s, op, address).hint ==
      if (op == Free || op == Unreserve) && Taken(s.bits, address / PAGE) && address / PAGE < s.hint
      then address / PAGE else s.hint
  {
    var i := address / PAGE;
    if i < |s.bits| && s.bits[i] != Sets(op) {
      CountUpdate(s.bits, i, Sets(op));
    } else {
      MovesNone(s, s, op == Reserve || op == Unreserve);
    }
    hide Count;
  }

  lemma {:induction false} ApplyManyCounters(s: Frames, op: PageOp, address: nat, count: nat)
    requires Words(s)
    ensures var r := ApplyMany(s, op, address, count);
      Words(r) && Moves(s, r, op == Reserve || op == Unreserve, Count(r.bits) - Count(s.bits))
  {
    hide Words, Moves, Apply, Count;
    if count == 0 {
      MovesNone(s, s, op == Reserve || op == Unreserve);
    } else {
      ApplyManyCounters(s, op, address, count - 1);
      var m := ApplyMany(s, op, address, count - 1);
      ApplyCounters(m, op, Visit(address, count - 1));
      MovesTwice(s, m, Apply(m, op, Visit(address, count - 1)), op == Reserve || op == Unreserve,
                 Count(m.bits) - Count(s.bits), Count(Apply(m, op, Visit(address, count - 1)).bits) - Count(m.bits));
    }
  }

  /** The calls that move pages into and out of the reserved counter. */
  predicate Reserving(c: Call) {
    c.Pages? && (c.op == Reserve || c.op == Unreserve)
  }

  /**
   * Every call moves exactly as many pages as it changes bits: between `free` and `reserved` if it reserves or
   * unreserves, between `free` and `used` if it locks, frees or requests; the third counter stays.
   */
  lemma StepCounters(s: Frames, c: Call)
    requires Words(s)
    ensures var r := Step(s, c).0;
      Words(r) && Moves(s, r, Reserving(c), Count(r.bits) - Count(s.bits))
  {
    assert PAGE == 4096;
    hide *;
    StepUnfolds(s, c);
    SettledCounters(s);
    match c
    case Pages(op, address, count) => ApplyManyCounters(s, op, address, count);
    case RequestPage =>
      ApplyCounters(Settle(s), Lock, FirstFree(s.bits, Settle(s).hint, s.Limit()) * PAGE);
      SettledMoves(s, Step(s, c).0, Count(Step(s, c).0.bits) - Count(s.bits));
    case RequestPages(amount) =>
      ApplyManyCounters(Settle(s), Lock, FindRun(s.bits, Settle(s).hint, amount) * PAGE, amount);
      SettledMoves(s, Step(s, c).0, Count(Step(s, c).0.bits) - Count(s.bits));
  }

  /** Settling the hint leaves the counters alone. */
  lemma SettledCounters(s: Frames)
    requires Words(s)
    ensures Words(Settle(s)) && Settle(s).bits == s.bits && Moves(Settle(s), Settle(s), false, 0)
  {
    MovesNone(Settle(s), Settle(s), false);
    hide FirstFree, Moves;
  }

  lemma SettledMoves(s: Frames, r: Frames, k: int)
    requires Moves(Settle(s), r, false, k)
    ensures Moves(s, r, false, k)
  {
    hide FirstFree, Plus;
  }

  lemma StepUnfolds(s: Frames, c: Call)
    ensures Step(s, c).0 ==
      if c.Pages? then ApplyMany(s, c.op, c.address, c.count)
      else if c.RequestPage? then
        var x := FirstFree(s.bits, Settle(s).hint, s.Limit());
        if Settle(s).hint <= x < s.Limit() then Apply(Settle(s), Lock, x * PAGE) else Settle(s)
      else
        var x := FindRun(s.bits, Settle(s).hint, c.amount);
        if x < s.Limit() then ApplyMany(Settle(s), Lock, x * PAGE, c.amount) else Settle(s)
    ensures Reserving(c) == (c.Pages? && (c.op == Reserve || c.op == Unreserve))
  {
    hide Settle, Apply, ApplyMany, FirstFree, FindRun;
  }

  /** How many pages the reserving calls of a run take, or the others, in all. */
  function Net(s: Frames, calls: seq<Call>, reserves: bool): int {
    if calls == [] then 0
    else
      var before, c := calls[..|calls| - 1], calls[|calls| - 1];
      var m := Run(s, before);
      Net(s, before, reserves) + if Reserving(c) == reserves then Count(Step(m, c).0.bits) - Count(m.bits) else 0
  }

  lemma NetOneMore(s: Frames, calls: seq<Call>, reserves: bool)
    requires calls != []
    ensures var n := |calls| - 1;
      var m := Run(s, calls[..n]);
      Net(s, calls, reserves) == Net(s, calls[..n], reserves)
        + if Reserving(calls[n]) == reserves then Count(Step(m, calls[n]).0.bits) - Count(m.bits) else 0
  {
    hide Run, Reserving, Count, Step;
  }

  /** Each counter has moved by what its own calls took. */
  ghost predicate Tells(s: Frames, r: Frames, reserved: int, used: int) {
    && r.free == Plus(s.free, -PAGE * (reserved + used))
    && r.reserved == Plus(s.reserved, PAGE * reserved)
    && r.used == Plus(s.used, PAGE * used)
    && reserved + used == Count(r.bits) - Count(s.bits)
  }

  /** So it is after every run, and together that is what the bitmap gained. */
  lemma {:induction false} RunCounters(s: Frames, calls: seq<Call>)
    requires Words(s)
    ensures Words(Run(s, calls)) && Tells(s, Run(s, calls), Net(s, calls, true), Net(s, calls, false))
  {
    hide *;
    if calls == [] {
      TellsNothing(s);
    } else {
      var n := |calls| - 1;
      var m := Run(s, calls[..n]);
      RunCounters(s, calls[..n]);
      StepCounters(m, calls[n]);
      RunUnfolds(s, calls);
      NetOneMore(s, calls, true);
      NetOneMore(s, calls, false);
      TellsMore(s, m, Run(s, calls), Net(s, calls[..n], true), Net(s, calls[..n], false), Reserving(calls[n]));
    }
  }

  lemma TellsNothing(s: Frames)
    requires Words(s)
    ensures Words(Run(s, [])) && Tells(s, Run(s, []), Net(s, [], true), Net(s, [], false))
  {
  }

  lemma TellsMore(s: Frames, m: Frames, r: Frames, reserved: int, used: int, reserves: bool)
    requires Tells(s, m, reserved, used) && Words(m)
    requires Moves(m, r, reserves, Count(r.bits) - Count(m.bits))
    ensures var k := Count(r.bits) - Count(m.bits);
      if reserves then Tells(s, r, reserved + k, used) else Tells(s, r, reserved, used + k)
  {
    hide Count, Plus;
    var k := Count(r.bits) - Count(m.bits);
    PlusTwice(s.free, -PAGE * (reserved + used), -PAGE * k);
    PlusTwice(s.used, PAGE * used, PAGE * k);
    PlusTwice(s.reserved, PAGE * reserved, PAGE * k);
  }

  // ---- What the counters are after the memory map is read

  lemma {:induction false} CountIsSize(bits: seq<bool>)
    ensures Count(bits) == |set p: nat | p < |bits| && bits[p]|
  {
    var all := set p: nat | p < |bits| && bits[p];
    if bits == [] {
      assert all == {};
    } else {
      var n := |bits| - 1;
      CountIsSize(bits[..n]);
      var before := set p: nat | p < n && bits[..n][p];
      assert bits[..n] + [bits[n]] == bits;
      assert all == before + if bits[n] then {n} else {};
      hide Count;
    }
  }

  lemma {:induction false} ReserveEntriesCounters(s: Frames, entries: seq<Entry>)
    requires Words(s)
    ensures var r := ReserveEntries(s, entries);
      Words(r) && Moves(s, r, true, Count(r.bits) - Count(s.bits))
  {
    hide Words, Moves, ApplyMany, Count;
    if entries == [] {
      MovesNone(s, s, true);
    } else {
      var e := entries[|entries| - 1];
      var m := ReserveEntries(s, entries[..|entries| - 1]);
      ReserveEntriesCounters(s, entries[..|entries| - 1]);
      if e.kind.Reserved? {
        ApplyManyCounters(m, Reserve, e.base, EntryPages(e));
        MovesTwice(s, m, ReserveEntries(s, entries), true, Count(m.bits) - Count(s.bits),
                   Count(ReserveEntries(s, entries).bits) - Count(m.bits));
      }
    }
  }

  ghost function TakenPages(bits: seq<bool>): set<nat> {
    set p: nat | p < |bits| && bits[p]
  }

  /** The pages counted as reserved: those of reserved entries and the first 0x100, unless their bit was set already. */
  ghost function ReservedPages(entries: seq<Entry>, size: nat, beyond: bool): set<nat> {
    set p: nat | p <= size * 8 && (InReserved(entries, p) || p < 0x100) && !(beyond && p == size * 8)
  }

  /** The pages counted as used: the bitmap's own, unless they are counted as reserved. */
  ghost function BitmapPages(entries: seq<Entry>, buffer: nat, size: nat, beyond: bool): set<nat> {
    set p: nat | p <= size * 8 && Covered(buffer, size / 4096 + 1, p)
                 && !(InReserved(entries, p) || p < 0x100) && !(beyond && p == size * 8)
  }

  /** The counters that `ReadMemoryMap` leaves, by the pages that each stands for. */
  lemma ClaimCounters(s: Frames, entries: seq<Entry>, buffer: nat, beyond: bool)
    requires s.used == 0 && s.reserved == 0
    requires forall e :: e in entries ==> Physical(e)
    requires buffer + (BitmapSize(entries) / 4096 + 1) * PAGE < WORD
    ensures var size := BitmapSize(entries);
      var r := Claim(Cleared(s, size, beyond, Total(entries)), entries, buffer, size);
      var reserved, used := |ReservedPages(entries, size, beyond)|, |BitmapPages(entries, buffer, size, beyond)|;
      && r.reserved == PAGE * reserved % WORD && r.used == PAGE * used % WORD
      && r.free == Plus(Total(entries), -PAGE * (reserved + used))
  {
    hide *;
    var size := BitmapSize(entries);
    var s0 := Cleared(s, size, beyond, Total(entries));
    var m := ReserveEntries(s0, entries);
    var low := ApplyMany(m, Reserve, 0, 0x100);
    var r := ApplyMany(low, Lock, buffer, size / 4096 + 1);
    ClearedIs(s, entries, beyond);
    ReserveEntriesCounters(s0, entries);
    ApplyManyCounters(m, Reserve, 0, 0x100);
    MovesTwice(s0, m, low, true, Count(m.bits) - Count(s0.bits), Count(low.bits) - Count(m.bits));
    ApplyManyCounters(low, Lock, buffer, size / 4096 + 1);
    ClaimUnfolds(s0, entries, buffer, size);
    ClaimedByEntries(s0, entries, size, beyond);
    ClaimedByBitmap(s0, entries, buffer, size, beyond);
    CountersAre(s0, low, r, |ReservedPages(entries, size, beyond)|, |BitmapPages(entries, buffer, size, beyond)|);
  }

  lemma ClearedIs(s: Frames, entries: seq<Entry>, beyond: bool)
    requires s.used == 0 && s.reserved == 0
    ensures var size := BitmapSize(entries);
      var s0 := Cleared(s, size, beyond, Total(entries));
      && Words(s0) && s0.used == 0 && s0.reserved == 0 && s0.free == Total(entries)
      && s0.bits == seq(size * 8, _ => false) + [beyond]
  {
  }

  lemma ClaimUnfolds(s0: Frames, entries: seq<Entry>, buffer: nat, size: nat)
    ensures Claim(s0, entries, buffer, size) ==
      ApplyMany(ApplyMany(ReserveEntries(s0, entries), Reserve, 0, 0x100), Lock, buffer, size / 4096 + 1)
  {
    hide ApplyMany, ReserveEntries;
  }

  lemma CountersAre(s0: Frames, low: Frames, r: Frames, reserved: nat, used: nat)
    requires s0.used == 0 && s0.reserved == 0
    requires Moves(s0, low, true, reserved) && Moves(low, r, false, used)
    ensures r.reserved == PAGE * reserved % WORD && r.used == PAGE * used % WORD
    ensures r.free == Plus(s0.free, -PAGE * (reserved + used))
  {
    PlusTwice(s0.free, -PAGE * reserved, -PAGE * used);
  }

  lemma ClaimedByEntries(s0: Frames, entries: seq<Entry>, size: nat, beyond: bool)
    requires s0.bits == seq(size * 8, _ => false) + [beyond]
    requires forall e :: e in entries ==> Physical(e)
    ensures var low := ApplyMany(ReserveEntries(s0, entries), Reserve, 0, 0x100);
      && Count(low.bits) - Count(s0.bits) == |ReservedPages(entries, size, beyond)|
      && forall p: nat | p <= size * 8 :: low.bits[p] <==> s0.bits[p] || InReserved(entries, p) || p < 0x100
  {
    hide ReserveEntries, ApplyMany, Count, InReserved;
    var m := ReserveEntries(s0, entries);
    var low := ApplyMany(m, Reserve, 0, 0x100);
    ApplyManyBits(m, Reserve, 0, 0x100);
    forall p: nat | p <= size * 8
      ensures low.bits[p] <==> s0.bits[p] || InReserved(entries, p) || p < 0x100
    {
      ReserveEntriesBits(s0, entries, p);
    }
    CountGrows(s0.bits, low.bits, ReservedPages(entries, size, beyond));
  }

  lemma ClaimedByBitmap(s0: Frames, entries: seq<Entry>, buffer: nat, size: nat, beyond: bool)
    requires s0.bits == seq(size * 8, _ => false) + [beyond]
    requires forall e :: e in entries ==> Physical(e)
    requires buffer + (size / 4096 + 1) * PAGE < WORD
    ensures var low := ApplyMany(ReserveEntries(s0, entries), Reserve, 0, 0x100);
      var r := ApplyMany(low, Lock, buffer, size / 4096 + 1);
      Count(r.bits) - Count(low.bits) == |BitmapPages(entries, buffer, size, beyond)|
  {
    hide ReserveEntries, ApplyMany, Count, InReserved;
    var low := ApplyMany(ReserveEntries(s0, entries), Reserve, 0, 0x100);
    ClaimedByEntries(s0, entries, size, beyond);
    ApplyManyBits(low, Lock, buffer, size / 4096 + 1);
    CountGrows(low.bits, ApplyMany(low, Lock, buffer, size / 4096 + 1).bits,
               BitmapPages(entries, buffer, size, beyond));
  }

  /** Setting the bits of some pages that were free counts those pages. */
  lemma CountGrows(before: seq<bool>, after: seq<bool>, pages: set<nat>)
    requires |before| == |after|
    requires forall p: nat | p < |before| :: after[p] <==> before[p] || p in pages
    requires forall p | p in pages :: p < |before| && !before[p]
    ensures Count(after) - Count(before) == |pages|
  {
    CountIsSize(before);
    CountIsSize(after);
    assert TakenPages(after) == TakenPages(before) + pages;
    hide Count;
  }
}
