/**
 * The page-frame allocator as a state machine on values: what each call of pageFrameAllocator.cpp
 * does to the bitmap, the search hint and the three counters, and what every run of calls keeps.
 */
module FrameLedger {
  import opened Units

  /** `bits` has one entry per page the bitmap covers, and one more for the bit just past it. */
  datatype RawFrames = Frames(bits: seq<bool>, hint: nat, free: nat, used: nat, reserved: nat) {
    function Limit(): int {
      |bits| - 1
    }
  }

  type Frames = s: RawFrames | |s.bits| > 0 witness Frames([false], 0, 0, 0, 0)

  datatype PageOp = Lock | Free | Reserve | Unreserve

  datatype Call =
    | Pages(op: PageOp, address: nat, count: nat)
    | RequestPage
    | RequestPages(amount: nat)

  /** Unsigned 64-bit addition of a signed constant. */
  function Plus(x: nat, d: int): nat {
    (x + d) % WORD
  }

  function Apply(s: Frames, op: PageOp, address: nat): (r: Frames)
    ensures |r.bits| == |s.bits|
  {
    var i := address / PAGE;
    if i >= |s.bits| then s
    else match op
      case Lock =>
        if s.bits[i] then s
        else s.(bits := s.bits[i := true], free := Plus(s.free, -PAGE), used := Plus(s.used, PAGE))
      case Reserve =>
        if s.bits[i] then s
        else s.(bits := s.bits[i := true], free := Plus(s.free, -PAGE), reserved := Plus(s.reserved, PAGE))
      case Free =>
        if !s.bits[i] then s
        else s.(bits := s.bits[i := false], free := Plus(s.free, PAGE), used := Plus(s.used, -PAGE),
                hint := if s.hint > i then i else s.hint)
      case Unreserve =>
        if !s.bits[i] then s
        else s.(bits := s.bits[i := false], free := Plus(s.free, PAGE), reserved := Plus(s.reserved, -PAGE),
                hint := if s.hint > i then i else s.hint)
  }

  /** The t-th address a multi-page call visits. */
  function Visit(address: nat, t: nat): nat {
    (address + t * PAGE) % WORD
  }

  function ApplyMany(s: Frames, op: PageOp, address: nat, count: nat): (r: Frames)
    ensures |r.bits| == |s.bits|
  {
    if count == 0 then s
    else Apply(ApplyMany(s, op, address, count - 1), op, Visit(address, count - 1))
  }

  /** What `PageBitmap[i]` reads: false outside the range `Get` accepts. */
  predicate Taken(bits: seq<bool>, i: nat) {
    i < |bits| && bits[i]
  }

  /** The least i in [from, to) that reads as free, or `to` when there is none. */
  function FirstFree(bits: seq<bool>, from: nat, to: nat): (i: nat)
    ensures from <= to ==> from <= i <= to
    ensures forall j :: from <= j < i && j < to ==> Taken(bits, j)
    ensures from <= i < to ==> !Taken(bits, i)
    ensures from > to ==> i == to
    decreases if from <= to then to - from else 0
  {
    if from >= to then to
    else if Taken(bits, from) then FirstFree(bits, from + 1, to)
    else from
  }

  function Settle(s: Frames): (r: Frames)
    ensures r.bits == s.bits
  {
    s.(hint := FirstFree(s.bits, 0, s.hint))
  }

  function Request(s: Frames): (r: (Frames, nat))
    ensures |r.0.bits| == |s.bits|
  {
    var h := Settle(s);
    var x := FirstFree(s.bits, h.hint, s.Limit());
    if h.hint <= x < s.Limit() then (Apply(h, Lock, x * PAGE), x * PAGE) else (h, 0)
  }

  predicate RunReadsFree(bits: seq<bool>, x: nat, amount: nat) {
    forall i :: x <= i < x + amount ==> !Taken(bits, i)
  }

  /** The scan of `RequestPages`: after a failed run it resumes `amount + 1` pages on. */
  function FindRun(bits: seq<bool>, x: nat, amount: nat): (r: nat)
    requires |bits| > 0
    ensures r < |bits| - 1 ==> x <= r && RunReadsFree(bits, r, amount) && !Taken(bits, r)
    decreases if x <= |bits| then |bits| - x else 0
  {
    if x >= |bits| - 1 then |bits|
    else if bits[x] then FindRun(bits, x + 1, amount)
    else if RunReadsFree(bits, x, amount) then x
    else FindRun(bits, x + amount + 1, amount)
  }

  lemma FindRunStep(bits: seq<bool>, x: nat, amount: nat)
    requires x < |bits| - 1
    ensures FindRun(bits, x, amount) ==
      if bits[x] then FindRun(bits, x + 1, amount)
      else if RunReadsFree(bits, x, amount) then x
      else FindRun(bits, x + amount + 1, amount)
  {
  }

  function RequestRun(s: Frames, amount: nat): (r: (Frames, nat))
    ensures |r.0.bits| == |s.bits|
  {
    var h := Settle(s);
    var x := FindRun(s.bits, h.hint, amount);
    if x < s.Limit() then (ApplyMany(h, Lock, x * PAGE, amount), x * PAGE) else (h, 0)
  }

  function Step(s: Frames, c: Call): (r: (Frames, nat))
    ensures |r.0.bits| == |s.bits|
  {
    match c
    case Pages(op, address, count) => (ApplyMany(s, op, address, count), 0)
    case RequestPage => Request(s)
    case RequestPages(amount) => RequestRun(s, amount)
  }

  function Run(s: Frames, calls: seq<Call>): (r: Frames)
    ensures |r.bits| == |s.bits|
  {
    if calls == [] then s else Step(Run(s, calls[..|calls| - 1]), calls[|calls| - 1]).0
  }

  // ---- RequestPage

  ghost predicate LowestFree(bits: seq<bool>, x: nat) {
    x < |bits| - 1 && !bits[x] && forall j :: 0 <= j < x ==> bits[j]
  }

  /**
   * Whatever the hint holds, `RequestPage` takes the lowest-numbered free page and locks only that
   * page; it leaves the bitmap alone exactly when no page is free.
   */
  lemma RequestTakesLowest(s: Frames)
    ensures var (after, address) := Request(s);
      if exists x :: LowestFree(s.bits, x)
      then LowestFree(s.bits, address / PAGE) && address % PAGE == 0
           && after.bits == s.bits[address / PAGE := true]
           && after.used == Plus(s.used, PAGE) && after.free == Plus(s.free, -PAGE)
           && after.reserved == s.reserved
      else address == 0 && after == s.(hint := after.hint) && forall i :: 0 <= i < s.Limit() ==> s.bits[i]
  {
    var (after, address) := Request(s);
    var h := Settle(s).hint;
    var x := FirstFree(s.bits, h, s.Limit());
    assert forall j :: 0 <= j < h && j < s.hint ==> Taken(s.bits, j);
    if h <= x < s.Limit() {
      forall j | 0 <= j < x
        ensures s.bits[j]
      {
        assert Taken(s.bits, j);
      }
      assert LowestFree(s.bits, x);
    } else {
      forall i | 0 <= i < s.Limit()
        ensures s.bits[i]
      {
        assert Taken(s.bits, i);
      }
    }
  }

  /** A zero result means that every page is taken, or that page 0 was handed out. */
  lemma RequestNull(s: Frames)
    ensures Request(s).1 == 0 <==> (forall i :: 0 <= i < s.Limit() ==> s.bits[i]) || !s.bits[0]
  {
    RequestTakesLowest(s);
    if !s.bits[0] && s.Limit() > 0 {
      assert LowestFree(s.bits, 0);
    }
  }

  // ---- RequestPages

  predicate Sets(op: PageOp) {
    op.Lock? || op.Reserve?
  }

  lemma ApplyBits(s: Frames, op: PageOp, address: nat)
    ensures var i := address / PAGE;
      Apply(s, op, address).bits == if i < |s.bits| then s.bits[i := Sets(op)] else s.bits
  {
  }

  /** A multi-page call writes the bits it visits and no others. */
  lemma {:induction false} ApplyManyBits(s: Frames, op: PageOp, address: nat, count: nat)
    requires address + count * PAGE < WORD
    ensures forall p :: address / PAGE <= p < address / PAGE + count && p < |s.bits| ==>
      ApplyMany(s, op, address, count).bits[p] == Sets(op)
    ensures forall p :: 0 <= p < |s.bits| && !(address / PAGE <= p < address / PAGE + count) ==>
      ApplyMany(s, op, address, count).bits[p] == s.bits[p]
  {
    if count > 0 {
      ApplyManyBits(s, op, address, count - 1);
      assert Visit(address, count - 1) / PAGE == address / PAGE + count - 1;
      ApplyBits(ApplyMany(s, op, address, count - 1), op, Visit(address, count - 1));
    }
  }

  /**
   * A run that `RequestPages` returns was free wherever the bitmap covers it and is locked now, and
   * no other bit changed.
   */
  lemma RequestRunSound(s: Frames, amount: nat)
    requires (|s.bits| + amount) * PAGE < WORD
    ensures var (after, address) := RequestRun(s, amount);
      var x := address / PAGE;
      if after.bits == s.bits && address == 0 then true
      else
        && (forall p :: x <= p < x + amount && p < |s.bits| ==> !s.bits[p] && after.bits[p])
        && (forall p :: 0 <= p < |s.bits| && !(x <= p < x + amount) ==> after.bits[p] == s.bits[p])
  {
    var (after, address) := RequestRun(s, amount);
    var h := Settle(s);
    var x := FindRun(s.bits, h.hint, amount);
    if x < s.Limit() {
      assert (x + amount) * PAGE < WORD;
      ApplyManyBits(h, Lock, x * PAGE, amount);
      forall p | x <= p < x + amount && p < |s.bits|
        ensures !s.bits[p] && after.bits[p]
      {
        assert !Taken(s.bits, p);
      }
    }
  }

  /** In state s, `RequestPages(amount)` hands out a run that goes on behind the bitmap. */
  predicate RunLeaves(s: Frames, amount: nat) {
    var x := FindRun(s.bits, Settle(s).hint, amount);
    x < s.Limit() < x + amount
  }

  /**
   * The free pages below the last two are one stretch that ends where the last but one page is taken. The scan
   * skips `amount + 1` pages after a failed run, so it then misses the last page with every amount.
   */
  predicate LastPageIsMissed(bits: seq<bool>, x: nat) {
    && x + 3 < |bits| && bits[|bits| - 3]
    && (forall j :: 0 <= j < x ==> bits[j])
    && forall j :: x <= j < |bits| - 3 ==> !bits[j]
  }

  /** The last page and the bit behind it read as free, and the scan can get there. */
  ghost predicate CanLeave(bits: seq<bool>) {
    |bits| > 1 && !bits[|bits| - 2] && !bits[|bits| - 1] && forall x: nat :: !LastPageIsMissed(bits, x)
  }

  /** Seven taken pages, a free one, and a bit behind the bitmap that reads as free. */
  lemma RequestRunLeavesTheBitmap()
    ensures RunLeaves(Frames(seq(7, _ => true) + [false, false], 0, 0, 0, 0), 2)
  {
    var bits := seq(7, _ => true) + [false, false];
    SkipTaken(bits, 0, 7, 2);
    assert RunReadsFree(bits, 7, 2);
  }

  /**
   * Requests of whatever size stay inside the bitmap if and only if the bitmap cannot be left; and so do requests of up
   * to `most` pages, as long as the bitmap has no more bits than that.
   */
  lemma RunsStayInsideExactly(s: Frames, most: nat)
    ensures (forall amount: nat :: !RunLeaves(s, amount)) <==> !CanLeave(s.bits)
    ensures |s.bits| <= most ==>
      ((forall amount: nat | amount <= most :: !RunLeaves(s, amount)) <==> !CanLeave(s.bits))
  {
    if CanLeave(s.bits) {
      var amount := LeavingAmount(s);
    }
    forall amount: nat | RunLeaves(s, amount)
      ensures CanLeave(s.bits)
    {
      LeavingNeeds(s, amount);
    }
  }

  lemma {:induction false} SkipTaken(bits: seq<bool>, from: nat, until: nat, amount: nat)
    requires from <= until < |bits| && forall j :: from <= j < until ==> bits[j]
    ensures FindRun(bits, from, amount) == FindRun(bits, until, amount)
    decreases until
  {
    if from < until {
      SkipTaken(bits, from, until - 1, amount);
      FindRunStep(bits, until - 1, amount);
    }
  }

  /** The scan starts at the hint and skips to the lowest free page. */
  lemma ScanStarts(s: Frames, x: nat, amount: nat)
    requires LowestFree(s.bits, x)
    ensures FindRun(s.bits, Settle(s).hint, amount) == FindRun(s.bits, x, amount)
  {
    var h := Settle(s).hint;
    assert !Taken(s.bits, x);
    assert h <= x;
    SkipTaken(s.bits, h, x, amount);
  }

  lemma LeavingNeeds(s: Frames, amount: nat)
    requires RunLeaves(s, amount)
    ensures CanLeave(s.bits)
  {
    var bits, n := s.bits, s.Limit();
    var x := FindRun(bits, Settle(s).hint, amount);
    assert !Taken(bits, n - 1) && !Taken(bits, n);
    forall y: nat | LastPageIsMissed(bits, y)
      ensures false
    {
      ScanStarts(s, y, amount);
      MissedByAll(bits, y, amount);
    }
  }

  /** From the lowest page of the stretch either the run fits into it, or the scan jumps past the last page. */
  lemma MissedByAll(bits: seq<bool>, x: nat, amount: nat)
    requires LastPageIsMissed(bits, x)
    ensures FindRun(bits, x, amount) + amount < |bits| || FindRun(bits, x, amount) >= |bits| - 1
  {
    FindRunStep(bits, x, amount);
    if x + amount > |bits| - 3 {
      assert Taken(bits, |bits| - 3);
      assert !RunReadsFree(bits, x, amount);
    }
  }

  /** When the bitmap can be left, some amount does it: a long run at once, or a jump to the last page. */
  lemma LeavingAmount(s: Frames) returns (amount: nat)
    requires CanLeave(s.bits)
    ensures RunLeaves(s, amount) && amount <= |s.bits|
  {
    var bits, n := s.bits, s.Limit();
    var x := FirstFree(bits, 0, n - 1);
    assert !Taken(bits, n - 1);
    forall j | 0 <= j < x
      ensures bits[j]
    {
      assert Taken(bits, j);
    }
    assert LowestFree(bits, x);
    amount := AmountFrom(bits, x);
    ScanStarts(s, x, amount);
  }

  lemma AmountFrom(bits: seq<bool>, x: nat) returns (amount: nat)
    requires CanLeave(bits) && LowestFree(bits, x)
    ensures amount <= |bits|
    ensures FindRun(bits, x, amount) < |bits| - 1 < FindRun(bits, x, amount) + amount
  {
    var n := |bits| - 1;
    if forall j :: x <= j < n ==> !bits[j] {
      amount := n - x + 1;
      assert RunReadsFree(bits, x, amount);
      FindRunStep(bits, x, amount);
    } else {
      var t := FirstTaken(bits, x);
      assert !LastPageIsMissed(bits, x);
      amount := n - 2 - x;
      assert Taken(bits, t) && x <= t < x + amount;
      FindRunStep(bits, x, amount);
      assert RunReadsFree(bits, n - 1, amount);
      FindRunStep(bits, n - 1, amount);
    }
  }

  lemma {:induction false} FirstTaken(bits: seq<bool>, x: nat) returns (t: nat)
    requires x < |bits| - 1 && exists j :: x <= j < |bits| - 1 && bits[j]
    ensures x <= t < |bits| - 1 && bits[t] && forall j :: x <= j < t ==> !bits[j]
    decreases |bits| - x
  {
    if bits[x] {
      t := x;
    } else {
      t := FirstTaken(bits, x + 1);
    }
  }

  // ---- Accounting

  function Bit(b: bool): nat {
    if b then 1 else 0
  }

  function Count(bits: seq<bool>): nat {
    if bits == [] then 0 else Count(bits[..|bits| - 1]) + Bit(bits[|bits| - 1])
  }

  lemma {:induction false} CountUpdate(bits: seq<bool>, i: nat, b: bool)
    requires i < |bits|
    ensures Count(bits[i := b]) == Count(bits) - Bit(bits[i]) + Bit(b)
  {
    var n := |bits| - 1;
    if i == n {
      assert bits[i := b][..n] == bits[..n];
    } else {
      CountUpdate(bits[..n], i, b);
      assert bits[i := b][..n] == bits[..n][i := b];
    }
  }

  ghost predicate Congruent(a: int, b: int) {
    (a - b) % WORD == 0
  }

  lemma PlusCongruent(x: nat, z: nat, d: int, y: int)
    requires Congruent(x + z, y)
    ensures Congruent(Plus(x, d) + z, y + d)
  {
    var q := (x + d) / WORD;
    assert Plus(x, d) == x + d - WORD * q;
  }

  /** The counters record `pages` locked or reserved pages, modulo 2^64. */
  ghost predicate Records(s: Frames, memory: nat, pages: int) {
    Congruent(s.used + s.reserved, PAGE * pages) && Congruent(s.free, memory - PAGE * pages)
  }

  /** Used plus reserved memory is 4096 times the set bits of the bitmap, free memory is the rest. */
  ghost predicate Balanced(s: Frames, memory: nat) {
    Records(s, memory, Count(s.bits[..s.Limit()]))
  }

  /** One page more, or less, on each side of the ledger. */
  lemma RecordsOneMore(s: Frames, r: Frames, memory: nat, pages: int, k: int)
    requires Records(s, memory, pages) && (k == 1 || k == -1) && r.free == Plus(s.free, -PAGE * k)
    requires || (r.used == Plus(s.used, PAGE * k) && r.reserved == s.reserved)
             || (r.reserved == Plus(s.reserved, PAGE * k) && r.used == s.used)
    ensures Records(r, memory, pages + k)
  {
    hide Congruent;
    hide Plus;
    PlusCongruent(s.free, 0, -PAGE * k, memory - PAGE * pages);
    PlusCongruent(s.used, s.reserved, PAGE * k, PAGE * pages);
    PlusCongruent(s.reserved, s.used, PAGE * k, PAGE * pages);
  }

  lemma ApplyCounts(s: Frames, op: PageOp, address: nat)
    ensures Apply(s, op, address) == s || (
      var r, k := Apply(s, op, address), if Sets(op) then 1 else -1;
      && Count(r.bits) == Count(s.bits) + k && r.free == Plus(s.free, -PAGE * k)
      && (|| (r.used == Plus(s.used, PAGE * k) && r.reserved == s.reserved)
          || (r.reserved == Plus(s.reserved, PAGE * k) && r.used == s.used)))
  {
    var i := address / PAGE;
    if i < |s.bits| && s.bits[i] != Sets(op) {
      CountUpdate(s.bits, i, Sets(op));
    }
    hide Count;
    hide Plus;
  }

  lemma ApplyRecords(s: Frames, op: PageOp, address: nat, memory: nat, pages: int)
    requires Records(s, memory, pages)
    ensures var r := Apply(s, op, address);
      Records(r, memory, pages + Count(r.bits) - Count(s.bits))
  {
    hide *;
    var r := Apply(s, op, address);
    ApplyCounts(s, op, address);
    if r != s {
      RecordsOneMore(s, r, memory, pages, if Sets(op) then 1 else -1);
    }
  }

  lemma {:induction false} ApplyManyRecords(s: Frames, op: PageOp, address: nat, count: nat, memory: nat, pages: int)
    requires Records(s, memory, pages)
    ensures var r := ApplyMany(s, op, address, count);
      Records(r, memory, pages + Count(r.bits) - Count(s.bits))
  {
    hide Records;
    hide Apply;
    hide Count;
    if count > 0 {
      ApplyManyRecords(s, op, address, count - 1, memory, pages);
      var m := ApplyMany(s, op, address, count - 1);
      ApplyRecords(m, op, Visit(address, count - 1), memory, pages + Count(m.bits) - Count(s.bits));
    }
  }

  lemma SettleRecords(s: Frames, memory: nat, pages: int)
    ensures Records(Settle(s), memory, pages) <==> Records(s, memory, pages)
  {
  }

  lemma StepRecords(s: Frames, c: Call, memory: nat, pages: int)
    requires Records(s, memory, pages)
    ensures var r := Step(s, c).0;
      Records(r, memory, pages + Count(r.bits) - Count(s.bits))
  {
    SettleRecords(s, memory, pages);
    hide Records;
    hide Count;
    hide ApplyMany;
    hide Apply;
    match c
    case Pages(op, address, count) => ApplyManyRecords(s, op, address, count, memory, pages);
    case RequestPage =>
      var x := FirstFree(s.bits, Settle(s).hint, s.Limit());
      ApplyRecords(Settle(s), Lock, x * PAGE, memory, pages);
    case RequestPages(amount) =>
      var x := FindRun(s.bits, Settle(s).hint, amount);
      ApplyManyRecords(Settle(s), Lock, x * PAGE, amount, memory, pages);
  }

  lemma {:induction false} RunRecords(s: Frames, calls: seq<Call>, memory: nat, pages: int)
    requires Records(s, memory, pages)
    ensures var r := Run(s, calls);
      Records(r, memory, pages + Count(r.bits) - Count(s.bits))
  {
    hide Records;
    hide Step;
    hide Count;
    if calls != [] {
      var n := |calls| - 1;
      RunRecords(s, calls[..n], memory, pages);
      var m := Run(s, calls[..n]);
      StepRecords(m, calls[n], memory, pages + Count(m.bits) - Count(s.bits));
    }
  }

  /** Does a request, made in state s, hand out page p? */
  predicate HandsOut(s: Frames, c: Call, p: nat) {
    match c
    case Pages(_, _, _) => false
    case RequestPage => Request(s).1 == p * PAGE && Request(s).0.bits != s.bits
    case RequestPages(amount) =>
      var x := FindRun(s.bits, Settle(s).hint, amount);
      x < s.Limit() && x <= p < x + amount
  }

  /** Does a call, made in state s, write the bit of page p? */
  ghost predicate Visits(s: Frames, c: Call, p: nat) {
    match c
    case Pages(_, address, count) => Passes(address, count, p)
    case RequestPage => HandsOut(s, c, p)
    case RequestPages(amount) =>
      var x := FindRun(s.bits, Settle(s).hint, amount);
      x < s.Limit() && Passes(x * PAGE, amount, p)
  }

  /** A multi-page call comes to page p; addresses wrap around. */
  ghost predicate Passes(address: nat, count: nat, p: nat) {
    exists t :: 0 <= t < count && Visit(address, t) / PAGE == p
  }

  /** The value that such a call leaves there. */
  predicate LeavesSet(c: Call) {
    c.Pages? ==> Sets(c.op)
  }

  /** Call k is the last one of the run to write the bit of page p. */
  ghost predicate VisitsLast(s: Frames, calls: seq<Call>, p: nat, k: nat) {
    && k < |calls| && Visits(Run(s, calls[..k]), calls[k], p)
    && forall j :: k < j < |calls| ==> !Visits(Run(s, calls[..j]), calls[j], p)
  }

  lemma {:induction false} ApplyManyBit(s: Frames, op: PageOp, address: nat, count: nat, p: nat)
    requires p < |s.bits|
    ensures ApplyMany(s, op, address, count).bits[p] == if Passes(address, count, p) then Sets(op) else s.bits[p]
  {
    if count > 0 {
      ApplyManyBit(s, op, address, count - 1, p);
      ApplyBits(ApplyMany(s, op, address, count - 1), op, Visit(address, count - 1));
      PassesMore(address, count, p);
      hide Visit, Apply, Passes;
    }
  }

  lemma PassesMore(address: nat, count: nat, p: nat)
    requires count > 0
    ensures Passes(address, count, p) <==> Passes(address, count - 1, p) || Visit(address, count - 1) / PAGE == p
  {
    hide Visit;
  }

  /** Below 2^64 a run comes to exactly the pages it covers. */
  lemma PassesIsCovered(x: nat, count: nat, p: nat)
    requires (x + count) * PAGE < WORD
    ensures Passes(x * PAGE, count, p) <==> x <= p < x + count
  {
    if x <= p < x + count {
      assert Visit(x * PAGE, p - x) / PAGE == p;
    }
    forall t | 0 <= t < count
      ensures Visit(x * PAGE, t) / PAGE == x + t
    {
    }
  }

  /** After any call a bit has the value that the call leaves it, if the call writes it at all. */
  lemma StepBit(s: Frames, c: Call, p: nat)
    requires p < |s.bits|
    ensures Step(s, c).0.bits[p] == if Visits(s, c, p) then LeavesSet(c) else s.bits[p]
  {
    match c
    case Pages(op, address, count) =>
      ApplyManyBit(s, op, address, count, p);
    case RequestPage =>
      RequestTakesLowest(s);
      hide Request;
    case RequestPages(amount) =>
      var x := FindRun(s.bits, Settle(s).hint, amount);
      if x < s.Limit() {
        ApplyManyBit(Settle(s), Lock, x * PAGE, amount, p);
      }
      hide ApplyMany, FindRun, Passes;
  }

  /** The counters agree with the bitmap as long as the bit behind the bitmap is as it was. */
  lemma {:induction false} RunDrifts(s: Frames, calls: seq<Call>, memory: nat)
    requires Balanced(s, memory)
    ensures Balanced(Run(s, calls), memory) <==> Run(s, calls).bits[s.Limit()] == s.bits[s.Limit()]
  {
    var r := Run(s, calls);
    var n := s.Limit();
    var c := Count(s.bits[..n]);
    RunRecords(s, calls, memory, c);
    assert Count(r.bits) == Count(r.bits[..n]) + Bit(r.bits[n]);
    assert Count(s.bits) == c + Bit(s.bits[n]);
    var drift: int := Bit(r.bits[n]) - Bit(s.bits[n]);
    RecordsExact(r, memory, Count(r.bits[..n]), drift);
  }

  /** A bit after a run is what the last call that writes it leaves there. */
  lemma {:induction false} RunLastVisit(s: Frames, calls: seq<Call>, p: nat)
    requires p < |s.bits|
    ensures forall k: nat :: VisitsLast(s, calls, p, k) ==> Run(s, calls).bits[p] == LeavesSet(calls[k])
    ensures (forall k: nat :: !VisitsLast(s, calls, p, k)) ==> Run(s, calls).bits[p] == s.bits[p]
  {
    hide *;
    if calls == [] {
      NothingVisits(s, p);
    } else {
      var n := |calls| - 1;
      RunUnfolds(s, calls);
      RunLastVisit(s, calls[..n], p);
      StepBit(Run(s, calls[..n]), calls[n], p);
      LastCall(s, calls, p);
      if !Visits(Run(s, calls[..n]), calls[n], p) {
        forall k: nat
          ensures VisitsLast(s, calls, p, k) ==> k < n && VisitsLast(s, calls[..n], p, k) && calls[..n][k] == calls[k]
          ensures k < n && VisitsLast(s, calls[..n], p, k) ==> VisitsLast(s, calls, p, k)
        {
          InRange(s, calls, p, k);
          if k < n {
            OneCallMore(s, calls, p, k);
          }
        }
        forall k: nat
          ensures VisitsLast(s, calls[..n], p, k) ==> k < n
        {
          InRange(s, calls[..n], p, k);
        }
      }
    }
  }

  lemma RunUnfolds(s: Frames, calls: seq<Call>)
    requires calls != []
    ensures Run(s, calls) == Step(Run(s, calls[..|calls| - 1]), calls[|calls| - 1]).0
  {
  }

  lemma NothingVisits(s: Frames, p: nat)
    ensures Run(s, []) == s && forall k: nat :: !VisitsLast(s, [], p, k)
  {
  }

  lemma InRange(s: Frames, calls: seq<Call>, p: nat, k: nat)
    ensures VisitsLast(s, calls, p, k) ==> k < |calls|
  {
  }

  /** A last call that writes the bit is the last to do so; one that does not write it is not. */
  lemma LastCall(s: Frames, calls: seq<Call>, p: nat)
    requires calls != []
    ensures var n := |calls| - 1;
      VisitsLast(s, calls, p, n) <==> Visits(Run(s, calls[..n]), calls[n], p)
    ensures forall k: nat :: k < |calls| - 1 && VisitsLast(s, calls, p, k) ==>
      !Visits(Run(s, calls[..|calls| - 1]), calls[|calls| - 1], p)
    ensures forall k: nat :: VisitsLast(s, calls, p, k) ==> k < |calls|
  {
    hide Visits, Run;
  }

  lemma OneCallMore(s: Frames, calls: seq<Call>, p: nat, k: nat)
    requires k < |calls| - 1
    ensures VisitsLast(s, calls, p, k) <==>
      VisitsLast(s, calls[..|calls| - 1], p, k) && !Visits(Run(s, calls[..|calls| - 1]), calls[|calls| - 1], p)
  {
    var n := |calls| - 1;
    hide Visits, Run;
    forall j | 0 <= j < n
      ensures calls[..n][..j] == calls[..j] && calls[..n][j] == calls[j]
    {
    }
  }

  /**
   * The accounting law over every run, with its exact condition: the counters agree with the bitmap after the run
   * if and only if no call writes the bit just past the bitmap, or the last one that does leaves it as it was.
   */
  lemma RunBalanced(s: Frames, calls: seq<Call>, memory: nat)
    requires Balanced(s, memory)
    ensures Balanced(Run(s, calls), memory) <==>
      forall k: nat :: VisitsLast(s, calls, s.Limit(), k) ==> LeavesSet(calls[k]) == s.bits[s.Limit()]
  {
    hide *;
    LimitIsPage(s);
    RunDrifts(s, calls, memory);
    RunLastVisit(s, calls, s.Limit());
  }

  lemma LimitIsPage(s: Frames)
    ensures 0 <= s.Limit() < |s.bits|
  {
  }

  /** For a single call: it must not write that bit, or must leave it as it was. */
  lemma CallBalanced(s: Frames, c: Call, memory: nat)
    requires Balanced(s, memory)
    ensures Balanced(Step(s, c).0, memory) <==> !Visits(s, c, s.Limit()) || LeavesSet(c) == s.bits[s.Limit()]
  {
    RunDrifts(s, [c], memory);
    assert [c][..0] == [];
    assert Run(s, [c]) == Step(s, c).0;
    StepBit(s, c, s.Limit());
    hide Balanced, Step, Visits;
  }

  /** So a request for a run unbalances the counters exactly when the run leaves the bitmap, one for a page never. */
  lemma RequestsBalanced(s: Frames, amount: nat, memory: nat)
    requires Balanced(s, memory) && (|s.bits| + amount) * PAGE < WORD
    ensures Balanced(Step(s, RequestPages(amount)).0, memory) <==> !RunLeaves(s, amount)
    ensures Balanced(Step(s, RequestPage).0, memory)
  {
    CallBalanced(s, RequestPages(amount), memory);
    CallBalanced(s, RequestPage, memory);
    var x := FindRun(s.bits, Settle(s).hint, amount);
    if x < s.Limit() {
      PassesIsCovered(x, amount, s.Limit());
    }
    if RunLeaves(s, amount) {
      assert !Taken(s.bits, s.Limit());
    }
    RequestTakesLowest(s);
    hide Balanced, Step, FindRun, Passes;
  }

  lemma RecordsExact(s: Frames, memory: nat, pages: int, drift: int)
    requires Records(s, memory, pages + drift) && -1 <= drift <= 1
    ensures Records(s, memory, pages) <==> drift == 0
  {
    var sum := s.used + s.reserved;
    assert sum - PAGE * pages == (sum - PAGE * (pages + drift)) + PAGE * drift;
  }

  /** The failing family has a member: locking the page just past an empty one-byte bitmap. */
  lemma LockPastTheEndUnbalances()
    ensures var s := Frames(seq(9, _ => false), 0, 0x8000, 0, 0);
      Balanced(s, 0x8000) && !Balanced(Apply(s, Lock, 8 * PAGE), 0x8000)
  {
    var s := Frames(seq(9, _ => false), 0, 0x8000, 0, 0);
    NoneSet(s.bits[..8]);
    var r := Apply(s, Lock, 8 * PAGE);
    assert r.bits[..8] == s.bits[..8];
  }

  lemma {:induction false} NoneSet(bits: seq<bool>)
    requires forall i :: 0 <= i < |bits| ==> !bits[i]
    ensures Count(bits) == 0
  {
    if bits != [] {
      NoneSet(bits[..|bits| - 1]);
    }
  }

  // ---- What is reserved stays reserved

  predicate Releases(c: Call, p: nat) {
    c.Pages? && !Sets(c.op) &&
    exists t :: 0 <= t < c.count && Visit(c.address, t) / PAGE == p
  }

  lemma {:induction false} ApplyManyKeeps(s: Frames, op: PageOp, address: nat, count: nat, p: nat)
    requires p < |s.bits| && s.bits[p]
    requires Sets(op) || forall t :: 0 <= t < count ==> Visit(address, t) / PAGE != p
    ensures ApplyMany(s, op, address, count).bits[p]
  {
    if count > 0 {
      ApplyManyKeeps(s, op, address, count - 1, p);
    }
  }

  lemma StepKeeps(s: Frames, c: Call, p: nat)
    requires p < s.Limit() && s.bits[p] && !Releases(c, p)
    ensures Step(s, c).0.bits[p]
  {
    match c
    case Pages(op, address, count) => ApplyManyKeeps(s, op, address, count, p);
    case RequestPage => RequestTakesLowest(s);
    case RequestPages(amount) =>
      var x := FindRun(s.bits, Settle(s).hint, amount);
      ApplyManyKeeps(Settle(s), Lock, x * PAGE, amount, p);
  }

  lemma TakenIsNotHandedOut(s: Frames, c: Call, p: nat)
    requires p < s.Limit() && s.bits[p]
    ensures !HandsOut(s, c, p)
  {
    if c.RequestPage? {
      RequestTakesLowest(s);
    } else {
      assert Taken(s.bits, p);
    }
  }

  lemma {:induction false} RunKeeps(s: Frames, calls: seq<Call>, p: nat)
    requires p < s.Limit() && s.bits[p]
    requires forall c :: c in calls ==> !Releases(c, p)
    ensures Run(s, calls).bits[p]
  {
    if calls != [] {
      var n := |calls| - 1;
      RunKeeps(s, calls[..n], p);
      StepKeeps(Run(s, calls[..n]), calls[n], p);
    }
  }

  /**
   * In every run of calls, no call hands out a page whose bit was set at the start, unless an
   * earlier call of the run released it.
   */
  lemma RunNeverHandsOut(s: Frames, calls: seq<Call>, k: nat, p: nat)
    requires p < s.Limit() && s.bits[p] && k < |calls|
    requires forall c :: c in calls[..k] ==> !Releases(c, p)
    ensures !HandsOut(Run(s, calls[..k]), calls[k], p)
  {
    RunKeeps(s, calls[..k], p);
    TakenIsNotHandedOut(Run(s, calls[..k]), calls[k], p);
  }
}
